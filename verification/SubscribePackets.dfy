/** SUBSCRIBE, UNSUBSCRIBE, SUBACK and UNSUBACK (sections 3.8 to 3.11 of MQTT 3.1.1). */
module SubscribePackets {
  import opened Bytes
  import opened RemainingLength
  import opened Wire
  import opened PublishPackets

  /** One topic filter of a request, with its requested QoS in a SUBSCRIBE and 0 in an UNSUBSCRIBE. */
  datatype Entry = Entry(filter: seq<Byte>, qos: int)

  ghost predicate IsRequestKind(kind: nat) { kind == SUBSCRIBE || kind == UNSUBSCRIBE }

  function EntryBytes(kind: nat, e: Entry): seq<Byte>
    requires e.qos >= 0
  {
    StringBytes(e.filter) + if kind == SUBSCRIBE then [Truncate(e.qos, 256)] else []
  }

  function EntriesBytes(kind: nat, es: seq<Entry>): seq<Byte>
    requires forall e :: e in es ==> e.qos >= 0
  {
    if es == [] then [] else EntryBytes(kind, es[0]) + EntriesBytes(kind, es[1..])
  }

  function RequestBody(kind: nat, id: Word, es: seq<Entry>): seq<Byte>
    requires forall e :: e in es ==> e.qos >= 0
  {
    IntBytes(id) + EntriesBytes(kind, es)
  }

  function RequestBytes(kind: nat, dup: nat, id: Word, es: seq<Entry>): seq<Byte>
    requires forall e :: e in es ==> e.qos >= 0
  {
    FrameBytes(HeaderByte(kind, dup, 1, 0), RequestBody(kind, id, es))
  }

  lemma {:induction false} EntriesSnoc(kind: nat, es: seq<Entry>, e: Entry)
    requires forall x :: x in es + [e] ==> x.qos >= 0
    ensures forall x :: x in es ==> x.qos >= 0
    ensures e.qos >= 0 && EntriesBytes(kind, es + [e]) == EntriesBytes(kind, es) + EntryBytes(kind, e)
  {
    hide EntryBytes;
    assert e in es + [e];
    assert forall x :: x in es ==> x in es + [e];
    if es == [] {
      assert (es + [e])[1..] == [];
    } else {
      assert (es + [e])[1..] == es[1..] + [e];
      EntriesSnoc(kind, es[1..], e);
      ConcatAssoc(EntryBytes(kind, es[0]), EntriesBytes(kind, es[1..]), EntryBytes(kind, e));
    }
  }

  lemma EntriesNone(kind: nat)
    ensures EntriesBytes(kind, []) == []
  {
  }

  /** The entries a caller's arrays describe. */
  ghost predicate Describes(filters: seq<MqttString>, qoss: seq<nat>, kind: nat, es: seq<Entry>) {
    && |es| == |filters|
    && (kind == SUBSCRIBE ==> |qoss| == |filters|)
    && forall i :: 0 <= i < |es| ==>
         && es[i].filter == filters[i].Text()
         && es[i].qos == if kind == SUBSCRIBE then qoss[i] else 0
  }

  /** `MQTTSerialize_subscribeLength` and `MQTTSerialize_unsubscribeLength`. */
  method RequestLength(kind: nat, filters: seq<MqttString>, qoss: seq<nat>, ghost id: Word, ghost es: seq<Entry>)
    returns (len: nat)
    requires Describes(filters, qoss, kind, es)
    requires forall i :: 0 <= i < |filters| ==> filters[i].Coherent()
    ensures len == |RequestBody(kind, id, es)|
  {
    hide EntriesBytes, IntBytes, Truncate;
    len := 2;
    EntriesNone(kind);
    var i := 0;
    while i < |filters|
      invariant 0 <= i <= |filters|
      invariant len == 2 + |EntriesBytes(kind, es[..i])|
    {
      StrLenIsWritten(filters[i]);
      EntriesSnoc(kind, es[..i], es[i]);
      assert es[..i + 1] == es[..i] + [es[i]];
      len := len + 2 + filters[i].StrLen() + if kind == SUBSCRIBE then 1 else 0;
      i := i + 1;
    }
    assert es[..i] == es;
  }

  method WriteEntries(buf: array<Byte>, at: nat, kind: nat, filters: seq<MqttString>, qoss: seq<nat>,
                      ghost es: seq<Entry>)
    returns (next: nat)
    requires Describes(filters, qoss, kind, es)
    requires at + |EntriesBytes(kind, es)| <= buf.Length
    modifies buf
    ensures Appended(buf, at, next, EntriesBytes(kind, es))
  {
    hide EntriesBytes, EntryBytes;
    EntriesNone(kind);
    next := at;
    var i := 0;
    while i < |filters|
      invariant 0 <= i <= |filters|
      invariant Appended(buf, at, next, EntriesBytes(kind, es[..i]))
    {
      EntriesFit(kind, es, i);
      next := WriteEntry(buf, next, kind, filters[i], if kind == SUBSCRIBE then qoss[i] else 0, es[i]);
      EntriesSnoc(kind, es[..i], es[i]);
      assert es[..i + 1] == es[..i] + [es[i]];
      ConcatAssoc(old(buf[..at]), EntriesBytes(kind, es[..i]), EntryBytes(kind, es[i]));
      i := i + 1;
    }
    assert es[..i] == es;
  }

  lemma {:induction false} EntriesFit(kind: nat, es: seq<Entry>, i: nat)
    requires forall e :: e in es ==> e.qos >= 0
    requires i < |es|
    ensures |EntriesBytes(kind, es[..i])| + |EntryBytes(kind, es[i])| <= |EntriesBytes(kind, es)|
  {
    if i == 0 {
    } else {
      EntriesFit(kind, es[1..], i - 1);
      assert es[..i][1..] == es[1..][..i - 1];
    }
  }

  method WriteEntry(buf: array<Byte>, at: nat, kind: nat, filter: MqttString, qos: nat, ghost e: Entry)
    returns (next: nat)
    requires e == Entry(filter.Text(), qos)
    requires at + |EntryBytes(kind, e)| <= buf.Length
    modifies buf
    ensures Appended(buf, at, next, EntryBytes(kind, e))
  {
    next := WriteMqttString(buf, at, filter);
    if kind == SUBSCRIBE {
      next := WriteChar(buf, next, Truncate(qos, 256));
    }
  }

  /** `MQTTSerialize_subscribe` and `MQTTSerialize_unsubscribe`. */
  method SerializeRequest(buf: array<Byte>, buflen: nat, kind: nat, dup: nat, id: Word,
                          filters: seq<MqttString>, qoss: seq<nat>, ghost es: seq<Entry>)
    returns (rc: int)
    requires buflen <= buf.Length && IsRequestKind(kind)
    requires Describes(filters, qoss, kind, es)
    requires forall i :: 0 <= i < |filters| ==> filters[i].Coherent()
    requires |RequestBody(kind, id, es)| < LENGTH_LIMIT
    modifies buf
    ensures rc == BUFFER_TOO_SHORT <==> PacketLen(|RequestBody(kind, id, es)|) > buflen
    ensures rc == BUFFER_TOO_SHORT ==> buf[..] == old(buf[..])
    ensures rc != BUFFER_TOO_SHORT ==> 0 < rc <= buflen && Appended(buf, 0, rc, RequestBytes(kind, dup, id, es))
  {
    hide EncodeLength, PacketLen, HeaderByte, IntBytes, EntriesBytes;
    var remLen := RequestLength(kind, filters, qoss, id, es);
    if PacketLen(remLen) > buflen {
      return BUFFER_TOO_SHORT;
    }
    PacketLenExact(remLen);
    var ptr := WriteFront(buf, HeaderByte(kind, dup, 1, 0), remLen);
    ghost var front := buf[..ptr];
    ptr := WriteInt(buf, ptr, id);
    ptr := WriteEntries(buf, ptr, kind, filters, qoss, es);
    ConcatAssoc(front, IntBytes(id), EntriesBytes(kind, es));
    rc := ptr;
  }

  /** A `char` read from the wire; whether it is signed depends on the platform. */
  function CharValue(b: Byte, signed: bool): int {
    if signed && b >= 128 then b as int - 256 else b
  }

  /** The entries read before the data ran out or a read failed. */
  datatype EntryList = EntryList(items: seq<Entry>, complete: bool)

  /** The array elements touched: one for each entry, and one more for an entry that is cut short. */
  function SlotsFor(r: EntryList): nat {
    |r.items| + if r.complete then 0 else 1
  }

  function ParseEntries(s: seq<Byte>, cur: nat, end: nat, kind: nat, signed: bool): (r: EntryList)
    requires end <= |s|
    decreases end - cur
  {
    if cur >= end then EntryList([], true)
    else match StringAt(s, cur, end)
      case None => EntryList([], false)
      case Some(filter) =>
        var next := cur + 2 + |filter|;
        if kind == SUBSCRIBE then
          if next >= end then EntryList([], false)
          else
            var rest := ParseEntries(s, next + 1, end, kind, signed);
            EntryList([Entry(filter, CharValue(s[next], signed))] + rest.items, rest.complete)
        else
          var rest := ParseEntries(s, next, end, kind, signed);
          EntryList([Entry(filter, 0)] + rest.items, rest.complete)
  }

  lemma ParseEntriesEnd(s: seq<Byte>, cur: nat, end: nat, kind: nat, signed: bool)
    requires end <= |s| && end <= cur
    ensures ParseEntries(s, cur, end, kind, signed) == EntryList([], true)
  {
  }

  /** One round of the deserialisers' loop. */
  lemma ParseEntriesStep(s: seq<Byte>, cur: nat, end: nat, kind: nat, signed: bool)
    requires cur < end <= |s|
    ensures var r := ParseEntries(s, cur, end, kind, signed);
            match StringAt(s, cur, end)
            case None => r == EntryList([], false)
            case Some(filter) =>
              var next := cur + 2 + |filter|;
              if kind == SUBSCRIBE && next >= end then r == EntryList([], false)
              else
                var (qos, after) := if kind == SUBSCRIBE then (CharValue(s[next], signed), next + 1) else (0, next);
                var rest := ParseEntries(s, after, end, kind, signed);
                r == EntryList([Entry(filter, qos)] + rest.items, rest.complete)
  {
    hide StringAt, CharValue;
  }

  /** The outcome of a request deserialiser; `len` is the size of the length field. */
  datatype RequestResult =
    | RequestOutOfBounds
    | OtherKind
    | Request(dup: nat, id: Word, entries: EntryList, len: nat)

  function ParseRequest(s: seq<Byte>, kind: nat, signed: bool): (r: RequestResult) {
    if s == [] then RequestOutOfBounds
    else if Kind(s[0]) != kind then OtherKind
    else if !FieldInBounds(s, 1) then RequestOutOfBounds
    else
      var d := DecodedAt(s, 1);
      var cur, end := 1 + d.len, 1 + d.len + d.value;
      if end > |s| || cur + 1 >= |s| then RequestOutOfBounds
      else Request(Dup(s[0]), IntAt(s, cur), ParseEntries(s, cur + 2, end, kind, signed), d.len)
  }

  /**
   * `MQTTDeserialize_subscribe` and `MQTTDeserialize_unsubscribe`. The source never looks at its
   * `maxcount`, so the arrays must hold every entry of the packet and the start of one that is cut short.
   */
  method DeserializeRequest(buf: array<Byte>, kind: nat, signed: bool,
                            filters: array<seq<Byte>>, qoss: array<int>)
    returns (rc: int, dup: nat, id: Word, count: nat)
    requires IsRequestKind(kind) && !ParseRequest(buf[..], kind, signed).RequestOutOfBounds?
    requires var r := ParseRequest(buf[..], kind, signed);
             r.Request? ==> SlotsFor(r.entries) <= filters.Length && SlotsFor(r.entries) <= qoss.Length
    modifies filters, qoss
    ensures match ParseRequest(buf[..], kind, signed)
            case OtherKind => rc == if kind == SUBSCRIBE then -1 else 0
            case Request(d, i, entries, len) =>
              && rc == (if entries.complete then 1 else len) && dup == d && id == i
              && count == |entries.items|
              && forall k :: 0 <= k < count ==> entries.items[k] == Entry(filters[k], qoss[k])
            case RequestOutOfBounds => true
  {
    hide ParseEntries, DecodedAt, FieldInBounds, IntAt, Kind, Dup;
    rc, dup, id, count := if kind == SUBSCRIBE then -1 else 0, 0, 0, 0;
    if Kind(buf[0]) != kind {
      return;
    }
    dup := Dup(buf[0]);
    var myLen;
    rc, myLen := DecodeBuf(buf, 1);
    var cur := 1 + rc;
    var end := cur + myLen;
    id, cur := ReadInt(buf, cur);
    var complete;
    complete, count := ReadEntries(buf, cur, end, kind, signed, filters, qoss);
    if complete {
      rc := 1;
    }
  }

  method ReadEntries(buf: array<Byte>, start: nat, end: nat, kind: nat, signed: bool,
                     filters: array<seq<Byte>>, qoss: array<int>)
    returns (complete: bool, count: nat)
    requires end <= buf.Length
    requires var r := ParseEntries(buf[..], start, end, kind, signed);
             SlotsFor(r) <= filters.Length && SlotsFor(r) <= qoss.Length
    modifies filters, qoss
    ensures var r := ParseEntries(buf[..], start, end, kind, signed);
            && complete == r.complete && count == |r.items|
            && forall k :: 0 <= k < count ==> r.items[k] == Entry(filters[k], qoss[k])
    ensures buf[..] == old(buf[..])
  {
    hide CharValue, ParseEntries, StringAt, IntAt;
    ghost var whole := ParseEntries(buf[..], start, end, kind, signed);
    var cur := start;
    count := 0;
    while cur < end
      invariant count <= |whole.items| && buf[..] == old(buf[..])
      invariant ParseEntries(buf[..], cur, end, kind, signed) == EntryList(whole.items[count..], whole.complete)
      invariant forall k :: 0 <= k < count ==> whole.items[k] == Entry(filters[k], qoss[k])
      decreases end - cur
    {
      ghost var here := ParseEntries(buf[..], cur, end, kind, signed);
      ParseEntriesStep(buf[..], cur, end, kind, signed);
      var ok, text, next := ReadLenString(buf, cur, end);
      if !ok {
        return false, count;
      }
      filters[count] := text;
      qoss[count] := 0;
      cur := next;
      if kind == SUBSCRIBE {
        if cur >= end {
          return false, count;
        }
        qoss[count] := CharValue(buf[cur], signed);
        cur := cur + 1;
      }
      assert here.items[0] == whole.items[count];
      assert here.items[1..] == whole.items[count + 1..];
      count := count + 1;
    }
    ParseEntriesEnd(buf[..], cur, end, kind, signed);
    complete := true;
  }

  /** What can travel and come back: short filters and QoS values a `char` keeps. */
  ghost predicate Portable(es: seq<Entry>, kind: nat) {
    forall e :: e in es ==> |e.filter| < 65536 && if kind == SUBSCRIBE then 0 <= e.qos < 128 else e.qos == 0
  }

  lemma {:induction false} EntriesRoundTrip(kind: nat, es: seq<Entry>, s: seq<Byte>, at: nat, signed: bool)
    requires Portable(es, kind) && At(s, at, EntriesBytes(kind, es))
    ensures ParseEntries(s, at, at + |EntriesBytes(kind, es)|, kind, signed) == EntryList(es, true)
  {
    hide StringAt, ParseEntries, EntryBytes;
    var end := at + |EntriesBytes(kind, es)|;
    if es == [] {
      ParseEntriesEnd(s, at, end, kind, signed);
    } else {
      var e, rest := es[0], EntriesBytes(kind, es[1..]);
      AtSplit(s, at, EntryBytes(kind, e), rest);
      EntryRoundTrip(kind, e, s, at, end);
      ParseEntriesStep(s, at, end, kind, signed);
      EntriesRoundTrip(kind, es[1..], s, at + |EntryBytes(kind, e)|, signed);
      assert es == [e] + es[1..];
    }
  }

  lemma EntryRoundTrip(kind: nat, e: Entry, s: seq<Byte>, at: nat, end: nat)
    requires Portable([e], kind) && e.qos >= 0
    requires At(s, at, EntryBytes(kind, e)) && at + |EntryBytes(kind, e)| <= end <= |s|
    ensures StringAt(s, at, end) == Some(e.filter)
    ensures |EntryBytes(kind, e)| == 2 + |e.filter| + if kind == SUBSCRIBE then 1 else 0
    ensures kind == SUBSCRIBE ==> s[at + 2 + |e.filter|] == e.qos
  {
    hide IntBytes;
    assert e in [e];
    AtSplit(s, at, StringBytes(e.filter), EntryBytes(kind, e)[|StringBytes(e.filter)|..]);
    StringRoundTrip(s, at, e.filter);
    if kind == SUBSCRIBE {
      var q := at + |StringBytes(e.filter)|;
      assert s[q..q + 1] == [e.qos];
      assert s[q..q + 1][0] == s[q];
    }
  }

  /** Round trip for request lists of any length: dup, identifier, count, every filter and every QoS in order. */
  lemma RequestRoundTrip(kind: nat, dup: nat, id: Word, es: seq<Entry>, s: seq<Byte>, signed: bool)
    requires IsRequestKind(kind) && dup < 2 && Portable(es, kind)
    requires |RequestBody(kind, id, es)| < LENGTH_LIMIT && At(s, 0, RequestBytes(kind, dup, id, es))
    ensures var r := ParseRequest(s, kind, signed);
            r.Request? && r.dup == dup && r.id == id && r.entries == EntryList(es, true)
  {
    HeaderFields(kind, dup, 1, 0);
    RequestBodyRoundTrip(kind, HeaderByte(kind, dup, 1, 0), id, es, s, signed);
  }

  lemma RequestBodyRoundTrip(kind: nat, h: Byte, id: Word, es: seq<Entry>, s: seq<Byte>, signed: bool)
    requires Portable(es, kind) && Kind(h) == kind
    requires |RequestBody(kind, id, es)| < LENGTH_LIMIT && At(s, 0, FrameBytes(h, RequestBody(kind, id, es)))
    ensures var r := ParseRequest(s, kind, signed);
            r.Request? && r.dup == Dup(h) && r.id == id && r.entries == EntryList(es, true)
  {
    hide EncodeLength, DecodedAt, FieldInBounds, IntBytes, IntAt, ParseEntries, EntriesBytes, FrameBytes, Kind, Dup;
    var body := RequestBody(kind, id, es);
    FrameHead(s, h, body);
    var cur := 1 + |EncodeLength(|body|)|;
    AtSplit(s, cur, IntBytes(id), EntriesBytes(kind, es));
    IntRoundTrip(s, cur, id);
    EntriesRoundTrip(kind, es, s, cur + 2, signed);
  }

  function SubackBytes(id: Word, codes: seq<Byte>): seq<Byte> {
    FrameBytes(HeaderByte(SUBACK, 0, 0, 0), IntBytes(id) + codes)
  }

  /** `MQTTSerialize_suback`. Its space check is too weak, so the room is asked of the caller. */
  method SerializeSuback(buf: array<Byte>, buflen: nat, id: Word, codes: seq<Byte>) returns (rc: int)
    requires |codes| + 2 < LENGTH_LIMIT && |SubackBytes(id, codes)| <= buf.Length
    modifies buf
    ensures rc == BUFFER_TOO_SHORT <==> buflen < 2 + |codes|
    ensures rc == BUFFER_TOO_SHORT ==> buf[..] == old(buf[..])
    ensures rc != BUFFER_TOO_SHORT ==> rc >= 0 && Appended(buf, 0, rc, SubackBytes(id, codes))
  {
    hide EncodeLength, HeaderByte, IntBytes;
    if buflen < 2 + |codes| {
      return BUFFER_TOO_SHORT;
    }
    var ptr := WriteFront(buf, HeaderByte(SUBACK, 0, 0, 0), 2 + |codes|);
    ghost var front := buf[..ptr];
    ptr := WriteInt(buf, ptr, id);
    ptr := WriteBytes(buf, ptr, codes);
    ConcatAssoc(front, IntBytes(id), codes);
    rc := ptr;
  }

  datatype SubackResult =
    | SubackOutOfBounds
    | NotSuback
    | ShortSuback(rc: nat)
    | Suback(id: Word, codes: seq<Byte>)

  function ParseSuback(s: seq<Byte>): (r: SubackResult) {
    if s == [] then SubackOutOfBounds
    else if Kind(s[0]) != SUBACK then NotSuback
    else if !FieldInBounds(s, 1) then SubackOutOfBounds
    else
      var d := DecodedAt(s, 1);
      var cur, end := 1 + d.len, 1 + d.len + d.value;
      if end > |s| then SubackOutOfBounds
      else if d.value < 2 then ShortSuback(d.len)
      else Suback(IntAt(s, cur), s[cur + 2..end])
  }

  /** `MQTTDeserialize_suback`: the test against `maxcount` comes one write too late. */
  method DeserializeSuback(buf: array<Byte>, maxcount: nat, granted: array<int>, signed: bool)
    returns (rc: int, id: Word, count: nat)
    requires !ParseSuback(buf[..]).SubackOutOfBounds?
    requires var r := ParseSuback(buf[..]); r.Suback? ==> |r.codes| <= granted.Length || maxcount < granted.Length
    modifies granted
    ensures match ParseSuback(buf[..])
            case NotSuback => rc == 0 && count == 0
            case ShortSuback(k) => rc == k && count == 0
            case Suback(i, codes) =>
              && id == i && rc == (if |codes| <= maxcount + 1 then 1 else -1)
              && count == (if |codes| <= maxcount + 1 then |codes| else maxcount + 1)
              && forall k :: 0 <= k < count ==> granted[k] == CharValue(codes[k], signed)
            case SubackOutOfBounds => true
    ensures forall k :: count <= k < granted.Length ==> granted[k] == old(granted[k])
  {
    hide CharValue, DecodedAt, FieldInBounds, IntAt, Kind;
    rc, id, count := 0, 0, 0;
    if Kind(buf[0]) != SUBACK {
      return;
    }
    var myLen;
    rc, myLen := DecodeBuf(buf, 1);
    var cur := 1 + rc;
    var end := cur + myLen;
    if end - cur < 2 {
      return;
    }
    id, cur := ReadInt(buf, cur);
    ghost var start := cur;
    while cur < end
      invariant start <= cur <= end && count == cur - start && count <= maxcount + 1
      invariant forall k :: 0 <= k < count ==> granted[k] == CharValue(buf[start + k], signed)
      invariant forall k :: count <= k < granted.Length ==> granted[k] == old(granted[k])
    {
      if count > maxcount {
        rc := -1;
        return;
      }
      granted[count] := CharValue(buf[cur], signed);
      count, cur := count + 1, cur + 1;
    }
    rc := 1;
  }

  lemma SubackRoundTrip(id: Word, codes: seq<Byte>, s: seq<Byte>)
    requires |codes| + 2 < LENGTH_LIMIT && At(s, 0, SubackBytes(id, codes))
    ensures ParseSuback(s) == Suback(id, codes)
  {
    HeaderFields(SUBACK, 0, 0, 0);
    SubackBodyRoundTrip(HeaderByte(SUBACK, 0, 0, 0), id, codes, s);
  }

  lemma SubackBodyRoundTrip(h: Byte, id: Word, codes: seq<Byte>, s: seq<Byte>)
    requires Kind(h) == SUBACK
    requires |codes| + 2 < LENGTH_LIMIT && At(s, 0, FrameBytes(h, IntBytes(id) + codes))
    ensures ParseSuback(s) == Suback(id, codes)
  {
    hide EncodeLength, DecodedAt, FieldInBounds, IntAt, IntBytes, FrameBytes, Kind;
    var body := IntBytes(id) + codes;
    FrameHead(s, h, body);
    var cur := 1 + |EncodeLength(|body|)|;
    AtSplit(s, cur, IntBytes(id), codes);
    IntRoundTrip(s, cur, id);
  }

  /** `MQTTSerialize_unsuback`. Its space check is too weak, so the room is asked of the caller. */
  method SerializeUnsuback(buf: array<Byte>, buflen: nat, id: Word) returns (rc: int)
    requires buf.Length >= 4
    modifies buf
    ensures rc == BUFFER_TOO_SHORT <==> buflen < 2
    ensures rc == BUFFER_TOO_SHORT ==> buf[..] == old(buf[..])
    ensures rc != BUFFER_TOO_SHORT ==> rc == 4 && Appended(buf, 0, 4, AckBytes(UNSUBACK, 0, id))
  {
    if buflen < 2 {
      return BUFFER_TOO_SHORT;
    }
    var ptr := WriteFront(buf, HeaderByte(UNSUBACK, 0, 0, 0), 2);
    ptr := WriteInt(buf, ptr, id);
    rc := ptr;
  }

  /** `MQTTDeserialize_unsuback`: any packet of the right type is reported as a success. */
  method DeserializeUnsuback(buf: array<Byte>) returns (rc: int, id: Word)
    requires !ParseAck(buf[..]).AckOutOfBounds?
    ensures Kind(buf[0]) == UNSUBACK ==> rc == 1
    ensures match ParseAck(buf[..])
            case Ack(_, _, i) => rc == 1 && id == i
            case ShortAck(k, _, n) => k != UNSUBACK ==> rc == n
            case AckOutOfBounds => true
  {
    var kind, dup;
    rc, kind, dup, id := DeserializeAck(buf);
    if kind == UNSUBACK {
      rc := 1;
    }
  }
}
