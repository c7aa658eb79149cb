/** Cutting the byte stream into control packets: the resumable reader and the blocking reader. */
module Framing {
  import opened Bytes
  import opened RemainingLength
  import opened Wire
  import opened Transport

  /** One result of a reader: its return code, what stands at the start of the buffer, the bytes used up. */
  datatype Segment = Segment(rc: int, image: seq<Byte>, size: nat)

  /** Four continuation bytes follow the header: no legal length field. */
  predicate LengthTooLong(s: seq<Byte>) {
    |s| >= 5 && s[1] >= 128 && s[2] >= 128 && s[3] >= 128 && s[4] >= 128
  }

  /**
   * The reference: what the first packet of `s` comes to in a buffer of `cap` bytes, `None` while it
   * is incomplete. The length field is put back in its shortest form, and a packet that does not fit
   * is given up after its length field. A strict reader also gives up on a length field of more than
   * four bytes; the other takes its first four.
   */
  function SegmentOf(s: seq<Byte>, cap: nat, strict: bool): (r: Option<Segment>)
    ensures r.Some? ==> 0 < r.value.size <= |s|
  {
    if s == [] then None
    else
      var m := FieldSize(s[1..], MAX_LENGTH_BYTES);
      if m < MAX_LENGTH_BYTES && (m == 0 || s[m] >= 128) then None
      else if s[m] >= 128 && strict then Some(Segment(READ_ERROR, [s[0]], 5))
      else
        var n := LengthValue(s[1..1 + m]);
        var front := [s[0]] + EncodeLength(n);
        if |front| + n > cap then Some(Segment(READ_ERROR, front, 1 + m))
        else if |s| < 1 + m + n then None
        else Some(Segment(Kind(s[0]), front + s[1 + m..1 + m + n], 1 + m + n))
  }

  /** All the segments of a stream, in order, as the resumable reader reports them. */
  function Segments(s: seq<Byte>, cap: nat): seq<Segment> {
    match SegmentOf(s, cap, true)
    case None => []
    case Some(g) => [g] + Segments(s[g.size..], cap)
  }

  /** The incomplete packet at the end of a stream. */
  function Leftover(s: seq<Byte>, cap: nat): seq<Byte> {
    match SegmentOf(s, cap, true)
    case None => s
    case Some(g) => Leftover(s[g.size..], cap)
  }

  /**
   * The two readers agree on code and consumption unless a length field of five bytes announces a packet
   * that fits. For one that does not fit, only the blocking reader puts the length back into the buffer.
   */
  lemma ReadersAgree(s: seq<Byte>, cap: nat)
    ensures !LengthTooLong(s) ==> SegmentOf(s, cap, true) == SegmentOf(s, cap, false)
    ensures LengthTooLong(s) ==>
              var n := LengthValue(s[1..5]);
              var nb, bl := SegmentOf(s, cap, true), SegmentOf(s, cap, false);
              && nb == Some(Segment(READ_ERROR, [s[0]], 5))
              && (bl.Some? && bl.value.rc == READ_ERROR && bl.value.size == 5 <==> 1 + |EncodeLength(n)| + n > cap)
              && (1 + |EncodeLength(n)| + n > cap ==> bl.value.image == [s[0]] + EncodeLength(n))
  {
    hide EncodeLength, LengthValue, Kind;
    if s != [] {
      FieldSizeShape(s[1..], MAX_LENGTH_BYTES);
      var m := FieldSize(s[1..], MAX_LENGTH_BYTES);
      if m == MAX_LENGTH_BYTES && s[4] >= 128 {
        var t := s[1..][..4];
        assert t[0] == s[1] && t[1] == s[2] && t[2] == s[3] && t[3] == s[4];
        assert LengthTooLong(s);
      }
    }
    if LengthTooLong(s) {
      assert AllContinue(s[1..][..4]);
      FieldSizeIs(s[1..], MAX_LENGTH_BYTES, 4);
    }
  }

  /** A five-byte length field on which the readers part: the blocking one returns a packet. */
  lemma ReadersDiffer()
    ensures var s: seq<Byte> := [0x30, 0x80, 0x80, 0x80, 0x80, 0x00];
            && SegmentOf(s, 5, true) == Some(Segment(READ_ERROR, [0x30], 5))
            && SegmentOf(s, 5, false) == Some(Segment(PUBLISH, [0x30, 0x00], 5))
  {
    var s: seq<Byte> := [0x30, 0x80, 0x80, 0x80, 0x80, 0x00];
    assert AllContinue(s[1..][..4]);
    FieldSizeIs(s[1..], MAX_LENGTH_BYTES, 4);
    var t := s[1..5];
    assert t == [0x80, 0x80, 0x80, 0x80];
    assert t[1..] == [0x80, 0x80, 0x80] && t[1..][1..] == [0x80, 0x80] && t[1..][1..][1..] == [0x80];
    assert LengthValue([0x80]) == 0;
    assert LengthValue([0x80, 0x80]) == 0;
    assert LengthValue(t) == 0;
    assert [0x30] + EncodeLength(0) + s[5..5] == [0x30, 0x00];
  }

  lemma {:induction false} FieldSizeStable(s: seq<Byte>, t: seq<Byte>, max: nat)
    requires var k := FieldSize(s, max); k == max || (k > 0 && s[k - 1] < 128)
    ensures FieldSize(s + t, max) == FieldSize(s, max)
  {
    if max > 0 && s[0] >= 128 {
      assert (s + t)[1..] == s[1..] + t;
      FieldSizeStable(s[1..], t, max - 1);
    }
  }

  /** More data never changes a segment that is complete. */
  lemma SegmentStable(s: seq<Byte>, t: seq<Byte>, cap: nat, strict: bool)
    requires SegmentOf(s, cap, strict).Some?
    ensures SegmentOf(s + t, cap, strict) == SegmentOf(s, cap, strict)
  {
    hide EncodeLength, LengthValue, Kind, FieldSize;
    var m := FieldSize(s[1..], MAX_LENGTH_BYTES);
    assert (s + t)[1..] == s[1..] + t;
    FieldSizeStable(s[1..], t, MAX_LENGTH_BYTES);
    SliceStable(s, t, 1, 1 + m);
    var n := LengthValue(s[1..1 + m]);
    if 1 + m + n <= |s| {
      SliceStable(s, t, 1 + m, 1 + m + n);
    }
  }

  lemma SliceStable(s: seq<Byte>, t: seq<Byte>, a: nat, b: nat)
    requires a <= b <= |s|
    ensures (s + t)[a..b] == s[a..b]
  {
  }

  lemma {:induction false} SegmentsAppend(s: seq<Byte>, t: seq<Byte>, cap: nat)
    requires Leftover(s, cap) == []
    ensures Segments(s + t, cap) == Segments(s, cap) + Segments(t, cap)
    ensures Leftover(s + t, cap) == Leftover(t, cap)
  {
    hide SegmentOf;
    if s == [] {
      assert s + t == t;
      SegmentOfEmpty(cap);
    } else {
      SegmentStable(s, t, cap, true);
      var g := SegmentOf(s, cap, true).value;
      assert (s + t)[g.size..] == s[g.size..] + t;
      SegmentsAppend(s[g.size..], t, cap);
    }
  }

  lemma SegmentOfEmpty(cap: nat)
    ensures SegmentOf([], cap, true) == None
  {
  }

  /** A header and some continuation bytes are no segment yet. */
  lemma HeaderOnly(p: seq<Byte>, cap: nat)
    requires 1 <= |p| <= 4 && AllContinue(p[1..])
    ensures SegmentOf(p, cap, true) == None
  {
    hide EncodeLength, LengthValue, Kind, FieldSize;
    assert p[1..][..|p| - 1] == p[1..];
    FieldSizeIs(p[1..], MAX_LENGTH_BYTES, |p| - 1);
    if |p| > 1 {
      assert p[1..][|p| - 2] == p[|p| - 1];
    }
  }

  /** Header and length field decide the segment, as far as the body has come. */
  lemma HeaderAndField(p: seq<Byte>, field: seq<Byte>, body: seq<Byte>, cap: nat, strict: bool)
    requires |p| > 0 && p == [p[0]] + field + body && IsLengthField(field)
    ensures var n := LengthValue(field);
            var front := [p[0]] + EncodeLength(n);
            SegmentOf(p, cap, strict) ==
            if |front| + n > cap then Some(Segment(READ_ERROR, front, 1 + |field|))
            else if |body| < n then None
            else Some(Segment(Kind(p[0]), front + body[..n], 1 + |field| + n))
  {
    hide EncodeLength, LengthValue, Kind, FieldSize;
    assert p[1..] == field + body;
    FieldSizeOfField(field, body);
    var m, n := |field|, LengthValue(field);
    assert p[1..1 + m] == field && p[m] == field[m - 1];
    if n <= |body| {
      assert p[1 + m..1 + m + n] == body[..n];
    }
  }

  /** Every packet a serialiser writes is one segment, byte for byte, wherever the stream goes on. */
  lemma FrameIsSegment(first: Byte, body: seq<Byte>, rest: seq<Byte>, cap: nat, strict: bool)
    requires |body| < LENGTH_LIMIT && |FrameBytes(first, body)| <= cap
    ensures SegmentOf(FrameBytes(first, body) + rest, cap, strict)
            == Some(Segment(Kind(first), FrameBytes(first, body), |FrameBytes(first, body)|))
  {
    hide EncodeLength, LengthValue, Kind, SegmentOf, IsLengthField;
    var p, field := FrameBytes(first, body) + rest, EncodeLength(|body|);
    EncodeLengthSize(|body|);
    EncodeLengthValue(|body|);
    assert p == [first] + field + (body + rest);
    HeaderAndField(p, field, body + rest, cap, strict);
    assert (body + rest)[..|body|] == body;
  }

  /** A packet that does not fit is given up after its length field, with header and length in the buffer. */
  lemma FrameTooBig(first: Byte, body: seq<Byte>, rest: seq<Byte>, cap: nat, strict: bool)
    requires |body| < LENGTH_LIMIT && |FrameBytes(first, body)| > cap
    ensures var front := [first] + EncodeLength(|body|);
            SegmentOf(FrameBytes(first, body) + rest, cap, strict) == Some(Segment(READ_ERROR, front, |front|))
  {
    hide EncodeLength, LengthValue, Kind, SegmentOf, IsLengthField;
    var p, field := FrameBytes(first, body) + rest, EncodeLength(|body|);
    EncodeLengthSize(|body|);
    EncodeLengthValue(|body|);
    assert p == [first] + field + (body + rest);
    HeaderAndField(p, field, body + rest, cap, strict);
  }

  /** A packet of which a part is missing is no segment yet. */
  lemma FrameIncomplete(first: Byte, body: seq<Byte>, k: nat, cap: nat)
    requires |body| < LENGTH_LIMIT && |FrameBytes(first, body)| <= cap && k < |FrameBytes(first, body)|
    ensures SegmentOf(FrameBytes(first, body)[..k], cap, true) == None
  {
    hide EncodeLength, LengthValue, Kind, SegmentOf;
    var bytes := FrameBytes(first, body);
    if SegmentOf(bytes[..k], cap, true).Some? {
      SegmentStable(bytes[..k], bytes[k..], cap, true);
      assert bytes[..k] + bytes[k..] == bytes + [];
      FrameIsSegment(first, body, [], cap, true);
    }
  }

  /** A packet before it is written. */
  datatype Frame = Frame(first: Byte, body: seq<Byte>)

  function Stream(frames: seq<Frame>): seq<Byte> {
    if frames == [] then [] else FrameBytes(frames[0].first, frames[0].body) + Stream(frames[1..])
  }

  function Expected(frames: seq<Frame>): seq<Segment> {
    if frames == [] then []
    else
      var bytes := FrameBytes(frames[0].first, frames[0].body);
      [Segment(Kind(frames[0].first), bytes, |bytes|)] + Expected(frames[1..])
  }

  ghost predicate Fit(frames: seq<Frame>, cap: nat) {
    forall f :: f in frames ==> |f.body| < LENGTH_LIMIT && |FrameBytes(f.first, f.body)| <= cap
  }

  /** The reference recovers a stream of packets completely. */
  lemma {:induction false} SegmentsOfStream(frames: seq<Frame>, cap: nat)
    requires Fit(frames, cap)
    ensures Segments(Stream(frames), cap) == Expected(frames) && Leftover(Stream(frames), cap) == []
  {
    hide SegmentOf, FrameBytes, Kind;
    if frames == [] {
      SegmentOfEmpty(cap);
    } else {
      var f := frames[0];
      FrameIsSegment(f.first, f.body, Stream(frames[1..]), cap, true);
      assert Stream(frames)[|FrameBytes(f.first, f.body)|..] == Stream(frames[1..]);
      SegmentsOfStream(frames[1..], cap);
    }
  }

  /**
   * Cut a stream that begins with a list of packets anywhere, into finished segments, an incomplete one
   * and the rest: the finished ones are the first packets of the list, or go on after all of them.
   */
  lemma {:induction false} CutAnywhere(frames: seq<Frame>, tail: seq<Byte>, cap: nat,
                                       done: seq<Byte>, partial: seq<Byte>, rest: seq<Byte>)
    requires Fit(frames, cap) && done + partial + rest == Stream(frames) + tail
    requires Leftover(done, cap) == [] && SegmentOf(partial, cap, true) == None
    ensures Segments(done, cap) <= Expected(frames) || Expected(frames) <= Segments(done, cap)
    ensures rest == [] ==> Expected(frames) <= Segments(done, cap)
    ensures tail == [] ==> Segments(done, cap) <= Expected(frames)
  {
    hide SegmentOf, FrameBytes, Kind;
    if done == [] {
      SegmentOfEmpty(cap);
      if rest == [] && frames != [] {
        assert partial == Stream(frames) + tail;
        FirstFrame(frames, tail, cap);
        assert false;
      }
    } else if frames != [] {
      ConcatAssoc(done, partial, rest);
      SegmentStable(done, partial + rest, cap, true);
      FirstFrame(frames, tail, cap);
      var k := |FrameBytes(frames[0].first, frames[0].body)|;
      assert done[k..] + partial + rest == (done + partial + rest)[k..];
      CutAnywhere(frames[1..], tail, cap, done[k..], partial, rest);
    }
  }

  /** The first packet of a stream is its first segment. */
  lemma FirstFrame(frames: seq<Frame>, tail: seq<Byte>, cap: nat)
    requires Fit(frames, cap) && frames != []
    ensures var bytes := FrameBytes(frames[0].first, frames[0].body);
            var s := Stream(frames) + tail;
            && SegmentOf(s, cap, true) == Some(Segment(Kind(frames[0].first), bytes, |bytes|))
            && SegmentOf(s, cap, false) == SegmentOf(s, cap, true)
            && |bytes| <= |s| && s[|bytes|..] == Stream(frames[1..]) + tail
  {
    hide SegmentOf, FrameBytes, Kind;
    var f := frames[0];
    var bytes := FrameBytes(f.first, f.body);
    assert f in frames;
    ConcatAssoc(bytes, Stream(frames[1..]), tail);
    FrameIsSegment(f.first, f.body, Stream(frames[1..]) + tail, cap, true);
    FrameIsSegment(f.first, f.body, Stream(frames[1..]) + tail, cap, false);
  }

  /** A call that is not an error uses up answers, and takes data when there is some and the transport is willing. */
  ghost predicate Progress(rc: int, answers0: seq<int>, pending0: seq<Byte>, answers: seq<int>, pending: seq<Byte>) {
    && |pending| <= |pending0|
    && (rc >= 0 ==> |answers| < |answers0|)
    && (rc >= 0 && pending0 != [] && answers0[0] > 0 ==> |pending| < |pending0|)
  }

  /** The last answer brought nothing: the transport was not willing, or had nothing. */
  ghost predicate Paused(answers0: seq<int>, answers: seq<int>, pending: seq<Byte>) {
    && |answers| < |answers0| && Later(answers0, answers)
    && (answers0[|answers0| - |answers| - 1] == 0 || pending == [])
  }

  lemma PausedEarlier(a: seq<int>, mid: seq<int>, b: seq<int>, pending: seq<Byte>)
    requires Later(a, mid) && Paused(mid, b, pending)
    ensures Paused(a, b, pending)
  {
    LaterStill(a, mid, b);
  }

  lemma OneAnswer(a: seq<int>, b: seq<int>, pending: seq<Byte>)
    requires b == (if a == [] then [] else a[1..])
    ensures Later(a, b)
    ensures a != [] && (a[0] == 0 || pending == []) ==> Paused(a, b, pending)
  {
  }

  /**
   * `MQTTTransport` with the buffer its user hands in again and again. The ghost fields record the
   * bytes of finished segments, the bytes of the one under way, and the results so far.
   */
  class FrameReader {
    const net: Network
    const buf: array<Byte>
    const buflen: nat
    var state: int
    var len: nat
    var remLen: nat
    var multiplier: nat
    ghost var origin: seq<Byte>
    ghost var done: seq<Byte>
    ghost var partial: seq<Byte>
    ghost var rest: seq<Byte>
    ghost var results: seq<Segment>

    /** Waiting for the rest of the length field. */
    ghost predicate InField()
      reads this, buf
    {
      && |partial| == 1 + len && len <= MAX_LENGTH_BYTES && AllContinue(partial[1..])
      && buf.Length >= 5 && buf[0] == partial[0]
      && (len > 0 ==> multiplier == Pow128(len) && remLen == LengthValue(partial[1..]))
    }

    /** Waiting for the rest of the body, of which `remLen` bytes are missing. */
    ghost predicate InBody(field: seq<Byte>, body: seq<Byte>)
      reads this, buf
    {
      && |partial| > 0 && partial == [partial[0]] + field + body && IsLengthField(field)
      && |body| + remLen == LengthValue(field)
      && len == 1 + |EncodeLength(LengthValue(field))| + |body|
      && len + remLen <= buflen <= buf.Length
      && buf[..len] == [partial[0]] + EncodeLength(LengthValue(field)) + body
    }

    /** The results are those of the reference on the bytes read, whatever the chunks they came in. */
    ghost predicate Accounted()
      reads this, net, buf
    {
      && buf.Length >= 5 && buflen <= buf.Length
      && Segments(done, buflen) == results && Leftover(done, buflen) == []
      && (!net.failed ==> done + rest == origin && partial + net.pending == rest)
    }

    ghost predicate Valid()
      reads this, net, buf
    {
      && Accounted()
      && SegmentOf(partial, buflen, true) == None
      && (state != 1 && state != 2 ==> partial == [])
      && (state == 1 ==> InField() && len < MAX_LENGTH_BYTES)
      && (state == 2 ==> remLen > 0 && exists field, body :: InBody(field, body))
    }

    /** The state may hold anything that is not a state in use. */
    constructor (net: Network, buf: array<Byte>, buflen: nat, state: int)
      requires buf.Length >= 5 && buflen <= buf.Length && state != 1 && state != 2 && !net.failed
      ensures Valid() && this.net == net && this.buf == buf && this.buflen == buflen
      ensures origin == net.pending && results == []
    {
      this.net, this.buf, this.buflen, this.state := net, buf, buflen, state;
      this.len, this.remLen, this.multiplier := 0, 0, 0;
      this.origin, this.rest, this.done, this.partial, this.results := net.pending, net.pending, [], [], [];
      SegmentOfEmpty(buflen);
    }

    /**
     * Whole runs, on a stream that begins with packets that fit: the results are always the first of
     * these packets or go on after them, and once the stream is read they are all there. With nothing
     * behind the packets there are no other results.
     */
    lemma RunDelivers(frames: seq<Frame>, tail: seq<Byte>)
      requires Valid() && !net.failed && origin == Stream(frames) + tail && Fit(frames, buflen)
      ensures results <= Expected(frames) || Expected(frames) <= results
      ensures net.pending == [] ==> Expected(frames) <= results
      ensures tail == [] ==> results <= Expected(frames)
    {
      hide SegmentOf, Segments, Leftover;
      ConcatAssoc(done, partial, net.pending);
      CutAnywhere(frames, tail, buflen, done, partial, net.pending);
    }

    /** Some, and not all, of the body is there. */
    ghost predicate SomeBody()
      reads this, buf, net
    {
      remLen > 0 && exists field, body :: InBody(field, body) && body != []
    }

    /** A `getfn` call for one byte of the length field. */
    method TakeByte() returns (frc: int, c: Byte)
      modifies this`partial, net`pending, net`answers, net`failed
      ensures frc == -1 || frc == 0 || frc == 1
      ensures partial == (if frc == 1 then old(partial) + [c] else old(partial))
      ensures partial + net.pending == old(partial + net.pending)
      ensures net.failed == (old(net.failed) || frc == -1)
      ensures Progress(frc, old(net.answers), old(net.pending), net.answers, net.pending)
      ensures Later(old(net.answers), net.answers) && (frc == 0 ==> Paused(old(net.answers), net.answers, net.pending))
    {
      var one := new Byte[1];
      one[0] := 0;
      frc := net.Recv(one, 0, 1);
      OneAnswer(old(net.answers), net.answers, net.pending);
      c := one[0];
      if frc == 1 {
        assert one[0..1][0] == old(net.pending)[0];
        assert old(net.pending) == [c] + net.pending;
        ConcatAssoc(partial, [c], net.pending);
        partial := partial + [c];
      }
    }

    /** One round of the loop of `MQTTPacket_decodenb`: the next byte of the length field. */
    method TakeFieldByte() returns (frc: int, more: bool)
      requires InField() && Accounted() && len < MAX_LENGTH_BYTES
      requires multiplier == Pow128(len) && remLen == LengthValue(partial[1..])
      modifies this`len, this`remLen, this`multiplier, this`partial
      modifies net`pending, net`answers, net`failed
      ensures Accounted() && |partial| > 0 && partial[0] == old(partial)[0]
      ensures -1 <= frc <= 1 && net.failed == (old(net.failed) || frc == -1)
      ensures frc == 0 ==> InField() && len == old(len)
      ensures frc == 1 && more ==> InField() && len == old(len) + 1
      ensures frc == 1 && more ==> multiplier == Pow128(len) && remLen == LengthValue(partial[1..])
      ensures frc == 1 && !more ==> len > 0 && IsLengthField(partial[1..]) && remLen == LengthValue(partial[1..])
      ensures Progress(frc, old(net.answers), old(net.pending), net.answers, net.pending)
      ensures Later(old(net.answers), net.answers) && (frc == 0 ==> Paused(old(net.answers), net.answers, net.pending))
    {
      hide Segments, Leftover, SegmentOf, EncodeLength, Progress, LengthValue, Pow128, IsLengthField, Paused, Later;
      ghost var field := partial[1..];
      var c;
      frc, c := TakeByte();
      more := false;
      if frc == 1 {
        FieldGrows(field, c);
        assert partial[1..] == field + [c];
        len := len + 1;
        remLen := remLen + c % 128 * multiplier;
        multiplier := multiplier * 128;
        more := c >= 128;
      }
    }

    /** `MQTTPacket_decodenb`; `tooLong` tells its two errors apart. */
    method DecodeNb() returns (rc: int, ghost tooLong: bool)
      requires InField() && Accounted()
      modifies this`len, this`remLen, this`multiplier, this`partial
      modifies net`pending, net`answers, net`failed
      ensures Accounted() && |partial| > 0 && partial[0] == old(partial)[0]
      ensures -1 <= rc && net.failed == (old(net.failed) || (rc == -1 && !tooLong))
      ensures tooLong ==> rc == -1 && InField() && len == MAX_LENGTH_BYTES
      ensures rc == 0 ==> InField() && len < MAX_LENGTH_BYTES
      ensures rc > 0 ==> IsLengthField(partial[1..]) && remLen == LengthValue(partial[1..])
      ensures Progress(rc, old(net.answers), old(net.pending), net.answers, net.pending)
      ensures Later(old(net.answers), net.answers) && (rc == 0 ==> Paused(old(net.answers), net.answers, net.pending))
    {
      hide Segments, Leftover, SegmentOf, EncodeLength, IsLengthField, Paused, Later;
      LaterSelf(net.answers);
      tooLong := false;
      if len == 0 {
        multiplier, remLen := 1, 0;
      }
      while true
        invariant InField() && Accounted() && multiplier == Pow128(len) && remLen == LengthValue(partial[1..])
        invariant net.failed == old(net.failed) && partial[0] == old(partial)[0]
        invariant |net.pending| <= old(|net.pending|)
        invariant net.answers != old(net.answers) || net.pending != old(net.pending) ==>
                    Progress(1, old(net.answers), old(net.pending), net.answers, net.pending)
        invariant Later(old(net.answers), net.answers)
        decreases MAX_LENGTH_BYTES - len
      {
        if len >= MAX_LENGTH_BYTES {
          return -1, true;
        }
        ghost var left := net.answers;
        var frc, more := TakeFieldByte();
        LaterStill(old(net.answers), left, net.answers);
        if frc == -1 {
          return -1, false;
        }
        if frc == 0 {
          PausedEarlier(old(net.answers), left, net.answers, net.pending);
          return 0, false;
        }
        if !more {
          return len, false;
        }
      }
    }

    /** Books the segment under way as finished. */
    ghost method Finish(g: Segment)
      requires Accounted() && SegmentOf(partial, buflen, true) == Some(g) && g.size == |partial|
      modifies this`done, this`partial, this`rest, this`results
      ensures Accounted() && partial == [] && results == old(results) + [g]
    {
      hide SegmentOf;
      SegmentsAppend(done, partial, buflen);
      assert partial[g.size..] == [];
      SegmentOfEmpty(buflen);
      assert Segments(partial, buflen) == [g];
      ConcatAssoc(done, partial, net.pending);
      done, results := done + partial, results + [g];
      rest, partial := net.pending, [];
    }

    /** State 0: the header byte. */
    method ReadHeader() returns (frc: int)
      requires Accounted() && partial == []
      modifies this`state, this`len, this`partial, buf, net`pending, net`answers, net`failed
      ensures Accounted() && -1 <= frc <= 1
      ensures frc <= 0 ==> partial == [] && state == 0
      ensures frc == 1 ==> state == 1 && len == 0 && InField()
      ensures net.failed == (old(net.failed) || frc == -1)
      ensures Progress(frc, old(net.answers), old(net.pending), net.answers, net.pending)
      ensures Later(old(net.answers), net.answers) && (frc == 0 ==> Paused(old(net.answers), net.answers, net.pending))
    {
      hide Segments, Leftover, SegmentOf, Paused, Later;
      state := 0;
      frc := net.Recv(buf, 0, 1);
      OneAnswer(old(net.answers), net.answers, net.pending);
      assert frc == 0 ==> old(net.answers) != [] && (old(net.answers)[0] == 0 || net.pending == []);
      if frc == 1 {
        assert buf[0..1][0] == old(net.pending)[0];
        assert old(net.pending) == [buf[0]] + net.pending;
        partial := [buf[0]];
        len := 0;
        state := 1;
      }
    }

    /** State 1: the length field, put back into the buffer in its shortest form. */
    method ReadField() returns (frc: int, ghost booked: bool)
      requires Accounted() && InField() && state == 1
      modifies this`state, this`len, this`remLen, this`multiplier, this`done, this`partial, this`rest, this`results
      modifies buf, net`pending, net`answers, net`failed
      ensures Accounted() && -1 <= frc && origin == old(origin)
      ensures booked ==> frc == -1 && partial == [] && |results| == old(|results|) + 1
                         && results[..old(|results|)] == old(results)
                         && results[old(|results|)].rc == -1 && results[old(|results|)].image <= buf[..]
      ensures !booked ==> results == old(results) && done == old(done)
      ensures net.failed == (old(net.failed) || (frc == -1 && !booked))
      ensures frc == 0 ==> state == 1 && InField() && len < MAX_LENGTH_BYTES
      ensures frc > 0 ==> state == 2 && exists field :: InBody(field, [])
      ensures Progress(frc, old(net.answers), old(net.pending), net.answers, net.pending)
      ensures Later(old(net.answers), net.answers) && (frc == 0 ==> Paused(old(net.answers), net.answers, net.pending))
    {
      hide Segments, Leftover, SegmentOf, EncodeLength, LengthValue, Kind, IsLengthField, Paused, Later;
      frc, booked := DecodeNb();
      if frc == -1 && booked {
        TooLongHeader(partial, buflen);
        Finish(Segment(READ_ERROR, [buf[0]], 5));
      }
      if frc <= 0 {
        return;
      }
      ghost var field := partial[1..];
      assert |field| <= MAX_LENGTH_BYTES && field != [] by {
        FieldBounds(field);
      }
      EncodeLengthShortest(field);
      assert buf[..1] == [buf[0]];
      var n := EncodeInto(buf, 1, remLen);
      len := 1 + n;
      assert buf[0] == buf[..len][0];
      assert partial == [partial[0]] + field + [];
      HeaderAndField(partial, field, [], buflen, true);
      if remLen + len > buflen {
        Finish(Segment(READ_ERROR, [buf[0]] + EncodeLength(remLen), |partial|));
        return -1, true;
      }
      state := 2;
      assert buf[..len] == [partial[0]] + EncodeLength(LengthValue(field)) + [];
      assert InBody(field, []);
    }

    /** State 2: the rest of the body; `booked` when it is complete. */
    method ReadBody(ghost field: seq<Byte>, ghost body: seq<Byte>) returns (rc: int, ghost booked: bool)
      requires Accounted() && InBody(field, body) && state == 2
      modifies this`state, this`len, this`remLen, this`done, this`partial, this`rest, this`results
      modifies buf, net`pending, net`answers, net`failed
      ensures Accounted() && -1 <= rc && origin == old(origin)
      ensures booked ==> partial == [] && state == 0 && |results| == old(|results|) + 1
                         && results[..old(|results|)] == old(results)
                         && results[old(|results|)].rc == rc && results[old(|results|)].image <= buf[..]
      ensures !booked ==> results == old(results) && done == old(done) && rc <= 0
      ensures net.failed == (old(net.failed) || (rc == -1 && !booked))
      ensures !booked && rc == -1 ==> state == 0
      ensures !booked && rc == 0 ==> state == 2 && remLen > 0
      ensures !booked && rc == 0 ==>
                exists more :: InBody(field, more) && (more != [] || Paused(old(net.answers), net.answers, net.pending))
      ensures Later(old(net.answers), net.answers)
      ensures old(remLen) > 0 ==> Progress(rc, old(net.answers), old(net.pending), net.answers, net.pending)
      ensures old(remLen) == 0 ==> net.answers == old(net.answers) && net.pending == old(net.pending)
    {
      hide Segments, Leftover, SegmentOf, EncodeLength, LengthValue, Kind, IsLengthField, Paused, Later;
      LaterSelf(net.answers);
      ghost var more := body;
      if remLen > 0 {
        ghost var front := buf[..len];
        var frc := net.Recv(buf, len, remLen);
        OneAnswer(old(net.answers), net.answers, net.pending);
        assert buf[..len] == front;
        if frc == -1 {
          state := 0;
          return -1, false;
        }
        if frc == 0 {
          assert InBody(field, body);
          return 0, false;
        }
        ghost var chunk := old(net.pending)[..frc];
        assert old(net.pending) == chunk + net.pending;
        Extend(field, body, chunk);
        more := body + chunk;
        remLen := remLen - frc;
        len := len + frc;
        if remLen > 0 {
          assert InBody(field, more);
          return 0, false;
        }
      }
      rc := Complete(field, more);
      booked := true;
    }

    /** The packet type, once the body is complete. */
    method Complete(ghost field: seq<Byte>, ghost body: seq<Byte>) returns (rc: int)
      requires Accounted() && InBody(field, body) && remLen == 0
      modifies this`state, this`done, this`partial, this`rest, this`results
      ensures Accounted() && partial == [] && state == 0 && rc >= 0
      ensures |results| == old(|results|) + 1 && results[..old(|results|)] == old(results)
      ensures results[old(|results|)].rc == rc && results[old(|results|)].image <= buf[..]
    {
      hide Segments, Leftover, SegmentOf, EncodeLength, LengthValue, Kind, IsLengthField;
      HeaderAndField(partial, field, body, buflen, true);
      assert body[..|body|] == body;
      assert buf[..len][0] == partial[0];
      rc := Kind(buf[0]);
      Finish(Segment(rc, [buf[0]] + EncodeLength(LengthValue(field)) + body, |partial|));
      state := 0;
    }

    /** The ghost record follows a chunk of the body into the buffer. */
    ghost method Extend(field: seq<Byte>, body: seq<Byte>, chunk: seq<Byte>)
      requires |partial| > 0 && partial == [partial[0]] + field + body
      requires len + |chunk| <= buf.Length
      requires buf[..len] == [partial[0]] + EncodeLength(LengthValue(field)) + body
      requires buf[len..len + |chunk|] == chunk
      modifies this`partial
      ensures partial == old(partial) + chunk && partial == [partial[0]] + field + (body + chunk)
      ensures buf[..len + |chunk|] == [partial[0]] + EncodeLength(LengthValue(field)) + (body + chunk)
      ensures partial + net.pending == old(partial) + (chunk + net.pending)
    {
      hide EncodeLength, LengthValue, Segments, Leftover;
      assert buf[..len + |chunk|] == buf[..len] + buf[len..len + |chunk|];
      ConcatAssoc([partial[0]] + EncodeLength(LengthValue(field)), body, chunk);
      ConcatAssoc([partial[0]] + field, body, chunk);
      ConcatAssoc(partial, chunk, net.pending);
      partial := partial + chunk;
    }

    /**
     * `MQTTPacket_readnb`. A call either adds one segment to the results and returns its code with
     * its bytes at the start of the buffer, or returns 0 for "call again", or reports an error of the
     * transport. It asks to be called again only when the transport brought nothing, or a part of the body.
     */
    method ReadNb() returns (rc: int)
      requires Valid()
      modifies this`state, this`len, this`remLen, this`multiplier, this`done, this`partial, this`rest, this`results
      modifies buf, net`pending, net`answers, net`failed
      ensures Valid() && origin == old(origin)
      ensures results == old(results) ==> done == old(done) && (rc == 0 || (rc == -1 && net.failed))
      ensures results != old(results) ==>
                && |results| == old(|results|) + 1 && results[..old(|results|)] == old(results)
                && rc == results[old(|results|)].rc && results[old(|results|)].image <= buf[..]
                && state == 0
      ensures net.failed == (old(net.failed) || (rc == -1 && results == old(results)))
      ensures Progress(rc, old(net.answers), old(net.pending), net.answers, net.pending)
      ensures rc == 0 && results == old(results) ==>
                Paused(old(net.answers), net.answers, net.pending) || (state == 2 && SomeBody())
    {
      hide Segments, Leftover, SegmentOf, EncodeLength, LengthValue, IsLengthField, Paused, Later, InBody;
      SegmentOfEmpty(buflen);
      LaterSelf(net.answers);
      if state != 1 && state != 2 {
        rc := ReadHeader();
        if rc <= 0 {
          return;
        }
      }
      ghost var left := net.answers;
      rc := ReadOn();
      if rc == 0 && Paused(left, net.answers, net.pending) {
        PausedEarlier(old(net.answers), left, net.answers, net.pending);
      }
    }

    /** The states after the header. */
    method ReadOn() returns (rc: int)
      requires Accounted() && (state == 1 || state == 2) && (state == 1 ==> InField())
      requires state == 2 ==> remLen > 0 && exists field, body :: InBody(field, body)
      modifies this`state, this`len, this`remLen, this`multiplier, this`done, this`partial, this`rest, this`results
      modifies buf, net`pending, net`answers, net`failed
      ensures Valid() && origin == old(origin)
      ensures results == old(results) ==> done == old(done) && (rc == 0 || (rc == -1 && net.failed))
      ensures results != old(results) ==>
                && |results| == old(|results|) + 1 && results[..old(|results|)] == old(results)
                && rc == results[old(|results|)].rc && results[old(|results|)].image <= buf[..]
                && state == 0
      ensures net.failed == (old(net.failed) || (rc == -1 && results == old(results)))
      ensures Progress(rc, old(net.answers), old(net.pending), net.answers, net.pending)
      ensures rc == 0 && results == old(results) ==>
                Paused(old(net.answers), net.answers, net.pending) || (state == 2 && SomeBody())
    {
      hide Segments, Leftover, SegmentOf, EncodeLength, LengthValue, IsLengthField, Paused, Later;
      SegmentOfEmpty(buflen);
      LaterSelf(net.answers);
      ghost var booked, field, body := false, [], [];
      if state == 1 {
        rc, booked := ReadField();
        if rc == -1 {
          state := 0;
          partial := [];
          return;
        }
        if rc == 0 {
          HeaderOnly(partial, buflen);
          return;
        }
        field :| InBody(field, []);
      } else {
        field, body :| InBody(field, body);
      }
      ghost var left := net.answers;
      rc, booked := ReadBody(field, body);
      if rc == -1 && !booked {
        partial := [];
      } else if !booked {
        body :| InBody(field, body) && (body != [] || Paused(left, net.answers, net.pending));
        HeaderAndField(partial, field, body, buflen, true);
        if body == [] {
          PausedEarlier(old(net.answers), left, net.answers, net.pending);
        }
      }
    }
  }

  /** The length field of a stream is its first `FieldSize` bytes, and it has all arrived. */
  ghost predicate FieldArrived(s: seq<Byte>, field: seq<Byte>) {
    && |field| <= |s| && field == s[..|field|] && |field| == FieldSize(s, MAX_LENGTH_BYTES)
    && (|field| == MAX_LENGTH_BYTES || (field != [] && field[|field| - 1] < 128))
  }

  /** One byte from a blocking source. */
  method ReadByte(net: Network) returns (ok: bool, c: Byte)
    modifies net`pending, net`answers, net`failed
    ensures ok ==> old(net.pending) == [c] + net.pending && net.failed == old(net.failed)
    ensures !ok ==> net.failed && net.pending == old(net.pending)
    ensures |net.answers| <= old(|net.answers|)
  {
    hide Moved;
    var one := new Byte[1];
    one[0] := 0;
    var rc, got := net.Read(one, 0, 1);
    ok, c := rc == 1, one[0];
    if ok {
      assert one[0..1][0] == old(net.pending)[0];
    }
  }

  /** `MQTTPacket_decode` on a blocking source, and `decodePacket` of the client: stops quietly on an error. */
  method DecodeFrom(net: Network) returns (value: nat, ghost field: seq<Byte>)
    modifies net`pending, net`answers, net`failed
    ensures old(net.pending) == field + net.pending && |field| <= MAX_LENGTH_BYTES
    ensures value == LengthValue(field) && value < LENGTH_LIMIT
    ensures old(net.failed) ==> net.failed
    ensures net.failed == old(net.failed) ==> old(net.failed) || FieldArrived(old(net.pending), field)
    ensures |net.answers| <= old(|net.answers|)
  {
    hide FieldSize, LengthValue, Pow128, IsLengthField;
    NoLength();
    value, field := 0, [];
    var multiplier: nat := 1;
    var len := 0;
    while true
      invariant 0 <= len == |field| <= MAX_LENGTH_BYTES && AllContinue(field)
      invariant old(net.pending) == field + net.pending && net.failed == old(net.failed)
      invariant value == LengthValue(field) && multiplier == Pow128(len) && value < LENGTH_LIMIT
      invariant |net.answers| <= old(|net.answers|)
      decreases MAX_LENGTH_BYTES - len
    {
      assert old(net.pending)[..len] == field;
      FieldSizeIs(old(net.pending), MAX_LENGTH_BYTES, len);
      len := len + 1;
      if len > MAX_LENGTH_BYTES {
        break;
      }
      var ok, c := ReadByte(net);
      if !ok {
        break;
      }
      ConcatAssoc(field, [c], net.pending);
      FieldGrows(field, c);
      field := field + [c];
      value := value + c % 128 * multiplier;
      multiplier := multiplier * 128;
      if c < 128 {
        break;
      }
    }
  }

  /** Steps 1 and 2 of a blocking reader: the header byte, and the length put back in its shortest form. */
  method ReadFront(net: Network, buf: array<Byte>) returns (ok: bool, remLen: nat, len: nat, ghost field: seq<Byte>)
    requires buf.Length >= 5
    modifies net`pending, net`answers, net`failed, buf
    ensures ok ==> |old(net.pending)| > 0 && old(net.pending)[1..] == field + net.pending
    ensures ok ==> remLen == LengthValue(field) && remLen < LENGTH_LIMIT && |net.answers| < old(|net.answers|)
    ensures ok ==> len == 1 + |EncodeLength(remLen)| <= 5 && buf[..len] == [old(net.pending)[0]] + EncodeLength(remLen)
    ensures ok && !net.failed ==> FieldArrived(old(net.pending)[1..], field)
    ensures |net.answers| <= old(|net.answers|) && (old(net.failed) || !ok ==> net.failed)
  {
    hide EncodeLength, LengthValue, FieldArrived, Moved;
    ghost var s := net.pending;
    ok, remLen, len, field := false, 0, 0, [];
    var rc, got := net.Read(buf, 0, 1);
    if rc != 1 {
      return;
    }
    ok := true;
    assert buf[..1] == [s[0]] by {
      assert buf[0..1] == s[..1];
    }
    remLen, field := DecodeFrom(net);
    EncodeLengthSize(remLen);
    var n := EncodeInto(buf, 1, remLen);
    len := 1 + n;
  }

  /** The header of a packet that does not fit stands at the start of the buffer. */
  ghost predicate HoldsTooBig(m: seq<Byte>, cap: nat) {
    exists n: nat :: 1 + |EncodeLength(n)| + n > cap && m != [] && [m[0]] + EncodeLength(n) <= m
  }

  lemma TooBigHeld(m: seq<Byte>, n: nat, cap: nat)
    requires 1 + |EncodeLength(n)| + n > cap && m != [] && [m[0]] + EncodeLength(n) <= m
    ensures HoldsTooBig(m, cap)
  {
  }

  /** How the steps of a blocking reader end. */
  datatype Fetch = NoHeader | TooBig | ShortBody | Complete

  /** The three steps `MQTTPacket_read` and the client's `readPacket` have in common. */
  method FetchPacket(net: Network, buf: array<Byte>, cap: nat) returns (r: Fetch, ghost frame: seq<Byte>)
    requires buf.Length >= 5 && cap <= buf.Length
    modifies net`pending, net`answers, net`failed, buf
    ensures r.Complete? ==> IsFrame(frame) && frame <= buf[..] && |frame| <= cap
    ensures |net.answers| <= old(|net.answers|) && (!r.NoHeader? ==> |net.answers| < old(|net.answers|))
    ensures old(net.failed) ==> net.failed
    ensures r.Complete? <==> frame != []
    ensures r.NoHeader? || r.ShortBody? ==> net.failed
    ensures r.TooBig? ==> HoldsTooBig(buf[..], cap)
    ensures !net.failed && !old(net.failed) ==>
              var g := SegmentOf(old(net.pending), cap, false);
              && g.Some? && net.pending == old(net.pending)[g.value.size..]
              && (r.TooBig? ==> g.value.rc == READ_ERROR && g.value.image <= buf[..])
              && (!r.TooBig? ==> r.Complete? && frame == g.value.image && g.value.rc == Kind(frame[0]))
  {
    hide EncodeLength, LengthValue, Kind, FieldArrived, SegmentOf, IsFrame, Moved, HoldsTooBig;
    ghost var s := net.pending;
    frame := [];
    var ok, remLen, len, field := ReadFront(net, buf);
    if !ok {
      return NoHeader, [];
    }
    ghost var front, tail := buf[..len], net.pending;
    assert s[1 + |field|..] == tail;
    if !net.failed {
      ArrivedSegment(s, field, cap);
    }
    if remLen + len > cap {
      assert buf[..][0] == buf[..len][0];
      TooBigHeld(buf[..], remLen, cap);
      return TooBig, [];
    }
    if remLen > 0 {
      var body, got := net.Read(buf, len, remLen);
      if body != remLen {
        return ShortBody, [];
      }
    }
    assert buf[..len] == front;
    r, frame := Complete, buf[..len + remLen];
    assert frame == front + buf[len..len + remLen];
    FrameMade(frame, buf[len..len + remLen]);
    assert frame[0] == s[0];
    if !net.failed {
      assert buf[len..len + remLen] == tail[..remLen];
      assert s[1 + |field|..1 + |field| + remLen] == tail[..remLen];
      assert s[1 + |field| + remLen..] == tail[remLen..];
    }
  }

  /** `MQTTPacket_read`: unless the transport fails, its result is the reference's for a reader that is not strict. */
  method ReadBlocking(net: Network, buf: array<Byte>, buflen: nat) returns (rc: int)
    requires buf.Length >= 5 && buflen <= buf.Length && !net.failed
    modifies net`pending, net`answers, net`failed, buf
    ensures !net.failed ==>
              var g := SegmentOf(old(net.pending), buflen, false);
              && g.Some? && rc == g.value.rc && g.value.image <= buf[..]
              && net.pending == old(net.pending)[g.value.size..]
  {
    hide SegmentOf, Kind;
    var r, frame := FetchPacket(net, buf, buflen);
    if r != Complete {
      return -1;
    }
    rc := Kind(buf[0]);
  }

  lemma ArrivedSegment(s: seq<Byte>, field: seq<Byte>, cap: nat)
    requires s != [] && FieldArrived(s[1..], field)
    ensures var n := LengthValue(field);
            var front := [s[0]] + EncodeLength(n);
            SegmentOf(s, cap, false) ==
            if |front| + n > cap then Some(Segment(READ_ERROR, front, 1 + |field|))
            else if |s| < 1 + |field| + n then None
            else Some(Segment(Kind(s[0]), front + s[1 + |field|..1 + |field| + n], 1 + |field| + n))
  {
    hide EncodeLength, LengthValue, Kind, FieldSize;
    var m := |field|;
    assert s[1..1 + m] == field;
    assert m > 0 ==> s[m] == field[m - 1];
  }

  lemma FieldBounds(field: seq<Byte>)
    requires IsLengthField(field)
    ensures 1 <= |field| <= MAX_LENGTH_BYTES
  {
  }

  lemma TooLongHeader(p: seq<Byte>, cap: nat)
    requires |p| == 5 && AllContinue(p[1..])
    ensures SegmentOf(p, cap, true) == Some(Segment(READ_ERROR, [p[0]], 5))
  {
    hide EncodeLength, LengthValue, Kind, FieldSize;
    assert p[1..][..4] == p[1..];
    FieldSizeIs(p[1..], MAX_LENGTH_BYTES, 4);
    assert p[1..][3] == p[4];
  }
}
