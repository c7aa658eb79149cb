/** The remaining-length field: seven bits a byte, least significant first (section 2.2.3 of MQTT 3.1.1). */
module RemainingLength {
  import opened Bytes

  const MAX_LENGTH_BYTES := 4

  /** 128^4: lengths from here on need a fifth byte. */
  const LENGTH_LIMIT := 268435456

  function EncodeLength(n: nat): (s: seq<Byte>)
    ensures s != []
  {
    if n < 128 then [n] else [n % 128 + 128] + EncodeLength(n / 128)
  }

  /** The number a length field stands for: the low seven bits of each byte, base 128. */
  function LengthValue(s: seq<Byte>): nat {
    if s == [] then 0 else s[0] % 128 + 128 * LengthValue(s[1..])
  }

  /** How many bytes of `s` belong to a length field of at most `max` bytes. */
  function FieldSize(s: seq<Byte>, max: nat): (k: nat)
    ensures k <= |s| && k <= max
  {
    if max == 0 || s == [] then 0
    else if s[0] < 128 then 1
    else 1 + FieldSize(s[1..], max - 1)
  }

  /** Continuation bytes and then one final byte. */
  ghost predicate IsLengthField(s: seq<Byte>) {
    && 1 <= |s| <= MAX_LENGTH_BYTES
    && AllContinue(s[..|s| - 1])
    && s[|s| - 1] < 128
  }

  ghost predicate AllContinue(s: seq<Byte>) {
    forall i :: 0 <= i < |s| ==> s[i] >= 128
  }

  function Pow128(k: nat): nat {
    if k == 0 then 1 else 128 * Pow128(k - 1)
  }

  lemma PowValues()
    ensures Pow128(0) == 1 && Pow128(1) == 128 && Pow128(2) == 16384
    ensures Pow128(3) == 2097152 && Pow128(4) == LENGTH_LIMIT
  {
    assert Pow128(2) == 128 * Pow128(1);
    assert Pow128(3) == 128 * Pow128(2);
    assert Pow128(4) == 128 * Pow128(3);
  }

  /** Round trip: the encoder's bytes stand for the number they were made from. */
  lemma {:induction false} EncodeLengthValue(n: nat)
    ensures LengthValue(EncodeLength(n)) == n
  {
    if n < 128 {
      assert [n][1..] == [];
    } else {
      EncodeLengthValue(n / 128);
      assert EncodeLength(n)[1..] == EncodeLength(n / 128);
    }
  }

  lemma {:induction false} EncodeLengthShape(n: nat)
    ensures var s := EncodeLength(n); AllContinue(s[..|s| - 1]) && s[|s| - 1] < 128
  {
    if n >= 128 {
      EncodeLengthShape(n / 128);
      var t := EncodeLength(n / 128);
      assert EncodeLength(n)[..|t|] == [n % 128 + 128] + t[..|t| - 1];
    }
  }

  /** How long the field is, for every length MQTT allows. */
  lemma EncodeLengthSize(n: nat)
    requires n < LENGTH_LIMIT
    ensures |EncodeLength(n)| == if n < 128 then 1 else if n < 16384 then 2 else if n < 2097152 then 3 else 4
    ensures IsLengthField(EncodeLength(n))
  {
    EncodeLengthShape(n);
    if n >= 128 {
      var m := n / 128;
      assert |EncodeLength(n)| == 1 + |EncodeLength(m)|;
      if m >= 128 {
        var k := m / 128;
        assert |EncodeLength(m)| == 1 + |EncodeLength(k)|;
        if k >= 128 {
          assert |EncodeLength(k)| == 1 + |EncodeLength(k / 128)|;
        }
      }
    }
  }

  /** The encoding is the shortest field for its value: no field of the same value is shorter. */
  lemma {:induction false} EncodeLengthShortest(s: seq<Byte>)
    requires s != []
    ensures |EncodeLength(LengthValue(s))| <= |s|
  {
    if |s| > 1 {
      EncodeLengthShortest(s[1..]);
      var v := LengthValue(s);
      assert v / 128 == LengthValue(s[1..]);
    } else {
      assert LengthValue(s[1..]) == 0;
    }
  }

  lemma {:induction false} LengthValueSnoc(s: seq<Byte>, b: Byte)
    ensures LengthValue(s + [b]) == LengthValue(s) + b % 128 * Pow128(|s|)
  {
    if s == [] {
      assert (s + [b])[1..] == [];
    } else {
      LengthValueSnoc(s[1..], b);
      assert (s + [b])[1..] == s[1..] + [b];
      var p := Pow128(|s| - 1);
      assert 128 * (b % 128 * p) == b % 128 * (128 * p);
    }
  }

  lemma {:induction false} LengthValueBound(s: seq<Byte>)
    ensures LengthValue(s) < Pow128(|s|)
  {
    if s != [] {
      LengthValueBound(s[1..]);
    }
  }

  /** `FieldSize` stops at the first byte without the continuation bit. */
  lemma {:induction false} FieldSizeIs(s: seq<Byte>, max: nat, k: nat)
    requires k <= |s| && k <= max && AllContinue(s[..k])
    ensures k < |s| && k < max && s[k] < 128 ==> FieldSize(s, max) == k + 1
    ensures k == |s| || k == max ==> FieldSize(s, max) == k
  {
    if k > 0 {
      assert s[0] == s[..k][0];
      assert s[..k] == [s[0]] + s[1..][..k - 1];
      FieldSizeIs(s[1..], max - 1, k - 1);
    }
  }

  /** A length field followed by anything is found again in full. */
  lemma FieldSizeOfField(field: seq<Byte>, rest: seq<Byte>)
    requires IsLengthField(field)
    ensures FieldSize(field + rest, MAX_LENGTH_BYTES) == |field|
  {
    var k := |field| - 1;
    assert (field + rest)[..k] == field[..k];
    FieldSizeIs(field + rest, MAX_LENGTH_BYTES, k);
  }

  /** Without a final byte among the first `FieldSize` ones there are only continuation bytes. */
  lemma {:induction false} FieldSizeShape(s: seq<Byte>, max: nat)
    ensures var k := FieldSize(s, max);
            && (k == 0 || AllContinue(s[..k - 1]))
            && (k > 0 && s[k - 1] >= 128 ==> (k == max || k == |s|) && AllContinue(s[..k]))
            && (k == 0 ==> s == [] || max == 0)
  {
    if max > 0 && s != [] && s[0] >= 128 {
      FieldSizeShape(s[1..], max - 1);
      var k := FieldSize(s[1..], max - 1);
      assert s[..k + 1] == [s[0]] + s[1..][..k];
      assert k > 0 ==> s[..k] == [s[0]] + s[1..][..k - 1];
    }
  }

  /** `MQTTPacket_encode`: writes the length field at `at` and returns its size. */
  method EncodeInto(buf: array<Byte>, at: nat, length: nat) returns (rc: nat)
    requires at + |EncodeLength(length)| <= buf.Length
    modifies buf
    ensures rc == |EncodeLength(length)|
    ensures buf[..at + rc] == old(buf[..at]) + EncodeLength(length)
    ensures forall k :: at + rc <= k < buf.Length ==> buf[k] == old(buf[k])
  {
    rc := 0;
    var left := length;
    ghost var done: seq<Byte> := [];
    while true
      invariant |done| == rc && done + EncodeLength(left) == EncodeLength(length)
      invariant buf[..at + rc] == old(buf[..at]) + done
      invariant forall k :: at + rc <= k < buf.Length ==> buf[k] == old(buf[k])
      decreases left
    {
      ghost var before, front := left, buf[..at + rc];
      var d := left % 128;
      left := left / 128;
      if left > 0 {
        d := d + 128;
      }
      buf[at + rc] := d;
      rc := rc + 1;
      assert buf[..at + rc] == front + [d];
      if left == 0 {
        assert EncodeLength(before) == [d];
        done := done + [d];
        break;
      }
      assert EncodeLength(before) == [d] + EncodeLength(left);
      ConcatAssoc(done, [d], EncodeLength(left));
      done := done + [d];
    }
  }

  /** What `MQTTPacket_decode` reports for the bytes of `s` from `at` on. */
  datatype Decoded = Decoded(value: nat, len: nat)

  /** The field found at `at`; after four continuation bytes the source reports five bytes. */
  function DecodedAt(s: seq<Byte>, at: nat): (d: Decoded)
    requires at < |s|
  {
    var k := FieldSize(s[at..], MAX_LENGTH_BYTES);
    Decoded(LengthValue(s[at..at + k]), if s[at + k - 1] >= 128 then k + 1 else k)
  }

  /** The field at `at` ends, or fills four bytes, before the end of `s`. */
  predicate FieldInBounds(s: seq<Byte>, at: nat) {
    && at < |s|
    && var k := FieldSize(s[at..], MAX_LENGTH_BYTES);
       k == MAX_LENGTH_BYTES || s[at + k - 1] < 128
  }

  lemma NoLength()
    ensures LengthValue([]) == 0 && Pow128(0) == 1
  {
  }

  lemma TailSlices(t: seq<Byte>, at: nat)
    requires at <= |t|
    ensures forall k :: 0 <= k <= |t| - at ==> t[at..][..k] == t[at..at + k]
    ensures Pow128(0) == 1
  {
  }

  /** One more byte of a length field. */
  lemma NextByte(s: seq<Byte>, k: nat)
    requires k < |s|
    ensures LengthValue(s[..k + 1]) == LengthValue(s[..k]) + s[k] % 128 * Pow128(k)
    ensures AllContinue(s[..k]) && s[k] >= 128 ==> AllContinue(s[..k + 1])
    ensures Pow128(k + 1) == 128 * Pow128(k)
  {
    hide LengthValue;
    assert s[..k + 1] == s[..k] + [s[k]];
    LengthValueSnoc(s[..k], s[k]);
  }

  /** The same for a field that is being received. */
  lemma FieldGrows(field: seq<Byte>, c: Byte)
    requires |field| < MAX_LENGTH_BYTES && AllContinue(field)
    ensures LengthValue(field + [c]) == LengthValue(field) + c % 128 * Pow128(|field|)
    ensures LengthValue(field + [c]) < LENGTH_LIMIT && Pow128(|field| + 1) == 128 * Pow128(|field|)
    ensures c >= 128 ==> AllContinue(field + [c])
    ensures c < 128 ==> IsLengthField(field + [c])
  {
    hide LengthValue, Pow128;
    LengthValueSnoc(field, c);
    LengthValueBound(field + [c]);
    PowStep(|field|);
    assert (field + [c])[..|field|] == field;
  }

  lemma PowStep(k: nat)
    requires k < MAX_LENGTH_BYTES
    ensures Pow128(k + 1) == 128 * Pow128(k) && Pow128(k + 1) <= LENGTH_LIMIT
  {
    PowValues();
  }

  /** `MQTTPacket_decodeBuf`. */
  method DecodeBuf(buf: array<Byte>, at: nat) returns (len: nat, value: nat)
    requires FieldInBounds(buf[..], at)
    ensures Decoded(value, len) == DecodedAt(buf[..], at)
    ensures 1 <= len <= MAX_LENGTH_BYTES + 1
  {
    hide FieldSize, LengthValue, Pow128;
    NoLength();
    ghost var s := buf[..][at..];
    TailSlices(buf[..], at);
    len, value := 0, 0;
    var multiplier: nat := 1;
    FieldSizeShape(s, MAX_LENGTH_BYTES);
    while true
      invariant 0 <= len <= MAX_LENGTH_BYTES && len <= |s|
      invariant AllContinue(s[..len])
      invariant value == LengthValue(s[..len]) && multiplier == Pow128(len)
      decreases MAX_LENGTH_BYTES - len
    {
      FieldSizeIs(s, MAX_LENGTH_BYTES, len);
      len := len + 1;
      if len > MAX_LENGTH_BYTES {
        break;
      }
      var c: int := buf[at + len - 1];
      NextByte(s, len - 1);
      value := value + c % 128 * multiplier;
      multiplier := multiplier * 128;
      if c < 128 {
        break;
      }
    }
  }

  /** A field written by the encoder is decoded to the same length, wherever it stands. */
  lemma DecodeEncoded(s: seq<Byte>, at: nat, n: nat)
    requires n < LENGTH_LIMIT && At(s, at, EncodeLength(n))
    ensures FieldInBounds(s, at) && DecodedAt(s, at) == Decoded(n, |EncodeLength(n)|)
  {
    var e := EncodeLength(n);
    EncodeLengthSize(n);
    EncodeLengthValue(n);
    assert s[at..] == e + s[at + |e|..];
    FieldSizeOfField(e, s[at + |e|..]);
  }

  /** `MQTTPacket_len`: the buffer space the serialisers ask for. */
  function PacketLen(remLen: nat): (n: nat)
  {
    var r := remLen + 1;
    if r < 128 then r + 1
    else if r < 16384 then r + 2
    else if r < 2097151 then r + 3
    else r + 4
  }

  /** The estimate is exact but for four lengths, where it asks for one byte too many. */
  lemma PacketLenExact(remLen: nat)
    requires remLen < LENGTH_LIMIT
    ensures var size := 1 + |EncodeLength(remLen)| + remLen;
            if remLen in {127, 16383, 2097150, 2097151} then PacketLen(remLen) == size + 1
            else PacketLen(remLen) == size
  {
    EncodeLengthSize(remLen);
  }
}
