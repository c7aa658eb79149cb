/** Whole sessions: what goes out on the wire while a stream of packets comes in. */
module SessionRuns {
  import opened Bytes
  import opened Wire
  import opened PublishPackets
  import Connecting = ConnectPackets
  import opened Framing
  import opened Handlers
  import opened SessionTrace
  import opened Client

  function Answer(f: seq<Byte>): seq<Byte> {
    if ReplyOwed(f).Some? then ReplyOwed(f).value else []
  }

  function Ping(sent: bool): (p: seq<Byte>) {
    if sent then Connecting.ZeroBytes(PINGREQ) else []
  }

  /** The packet is complete enough to be answered, if it is of a type that is. */
  ghost predicate Answerable(f: seq<Byte>) {
    ReplyKind(f) != 0 ==> ReplyOwed(f).Some?
  }

  /** The output for a list of packets: the answer each calls for, and after it at most one ping. */
  function Replies(frames: seq<Frame>, pings: seq<bool>): seq<Byte>
    requires |frames| == |pings|
  {
    if frames == [] then []
    else
      var n := |frames| - 1;
      Replies(frames[..n], pings[..n]) + (Answer(FrameBytes(frames[n].first, frames[n].body)) + Ping(pings[n]))
  }

  lemma RepliesSnoc(frames: seq<Frame>, pings: seq<bool>, f: Frame, ping: bool)
    requires |frames| == |pings|
    ensures Replies(frames + [f], pings + [ping]) ==
            Replies(frames, pings) + (Answer(FrameBytes(f.first, f.body)) + Ping(ping))
  {
    assert (frames + [f])[..|frames|] == frames && (pings + [ping])[..|pings|] == pings;
  }

  /** One successful cycle writes the answer its packet calls for and at most one ping. */
  lemma OneCycle(before: seq<Event>, after: seq<Event>, kind: int, f: seq<Byte>) returns (ping: bool)
    requires TraceOk(before) && TraceOk(after) && Owed(before) == None && Owed(after) == None
    requires CycleLog(before, after, kind, f) && kind > 0 && Answerable(f)
    ensures WireOf(after) == WireOf(before) + (Answer(f) + Ping(ping))
  {
    hide TraceOk, WireOf, ReplyOwed, ReplyKind, AckBytes, Connecting.ZeroBytes, Owed, StepOk, Answer;
    var p := Sent(Connecting.ZeroBytes(PINGREQ));
    var answered :| Answered(before + [Received(f)], answered, kind, f)
      && (after == answered || after == answered + [p]);
    ping := after != answered;
    assert after == answered + if ping then [Sent(Ping(true))] else [];
    if answered == before + [Received(f)] {
      SilentCycle(before, after, f, ping);
    } else {
      var id: Word :| answered == before + [Received(f)] + [Sent(AckBytes(ReplyKind(f), 0, id))];
      AnsweredCycle(before, AckBytes(ReplyKind(f), 0, id), after, f, ping);
    }
  }

  lemma SilentCycle(before: seq<Event>, after: seq<Event>, f: seq<Byte>, ping: bool)
    requires TraceOk(after) && Owed(after) == None
    requires after == before + [Received(f)] + if ping then [Sent(Ping(true))] else []
    ensures WireOf(after) == WireOf(before) + (Answer(f) + Ping(ping))
  {
    hide TraceOk, WireOf, ReplyOwed, Connecting.ZeroBytes, Owed, StepOk;
    var got := before + [Received(f)];
    WireStep(before, Received(f));
    NotOwed(got, after, f);
    assert Answer(f) + Ping(ping) == Ping(ping);
    if ping {
      WireStep(got, Sent(Ping(true)));
    }
  }

  lemma AnsweredCycle(before: seq<Event>, ack: seq<Byte>, after: seq<Event>, f: seq<Byte>, ping: bool)
    requires TraceOk(after) && Answerable(f) && ReplyKind(f) != 0
    requires after == before + [Received(f)] + [Sent(ack)] + if ping then [Sent(Ping(true))] else []
    ensures WireOf(after) == WireOf(before) + (Answer(f) + Ping(ping))
  {
    hide TraceOk, WireOf, ReplyOwed, ReplyKind, Connecting.ZeroBytes, StepOk;
    var got := before + [Received(f)];
    assert after[..|got|] == got && after[|got|] == Sent(ack);
    AnswerIsOwed(got, after, f);
    WireStep(before, Received(f));
    WireStep(got, Sent(ack));
    if ping {
      WireStep(got + [Sent(ack)], Sent(Ping(true)));
    } else {
      assert after == got + [Sent(ack)];
    }
    ConcatAssoc(WireOf(before), ack, Ping(ping));
  }

  lemma WireStep(log: seq<Event>, e: Event)
    ensures WireOf(log + [e]) == WireOf(log) + match e case Sent(p) => p case SendFailed(p) => p case _ => []
  {
    assert (log + [e])[..|log|] == log;
  }

  lemma TraceStep(log: seq<Event>, i: nat)
    requires TraceOk(log) && i < |log|
    ensures StepOk(log[..i], log[i])
  {
    PrefixOk(log, i);
  }

  /** A packet nothing was sent for calls for nothing. */
  lemma NotOwed(got: seq<Event>, after: seq<Event>, f: seq<Byte>)
    requires got != [] && got[|got| - 1] == Received(f) && Owed(after) == None && TraceOk(after)
    requires after == got || after == got + [Sent(Connecting.ZeroBytes(PINGREQ))]
    ensures ReplyOwed(f) == None
  {
    hide TraceOk, ReplyOwed, ReplyKind, PingAfter, Heard;
    ZeroKind(PINGREQ);
    if ReplyOwed(f).Some? && after != got {
      ReplyHasKind(f);
      assert after[..|got|] == got;
      TraceStep(after, |got|);
    }
  }

  /** What was sent for a packet is what it calls for. */
  lemma AnswerIsOwed(got: seq<Event>, after: seq<Event>, f: seq<Byte>)
    requires got != [] && got[|got| - 1] == Received(f) && TraceOk(after) && Answerable(f) && ReplyKind(f) != 0
    requires |got| < |after| && after[..|got|] == got && after[|got|].Sent?
    ensures ReplyOwed(f).Some? && after[|got|] == Sent(ReplyOwed(f).value)
  {
    hide TraceOk, ReplyOwed, ReplyKind, PingAfter, Heard;
    TraceStep(after, |got|);
  }

  /** A cycle over an intact transport reads the next packet of the stream, whole. */
  lemma NextFrame(frames: seq<Frame>, tail: seq<Byte>, i: nat, before: seq<Byte>, after: seq<Byte>, cap: nat,
                  kind: int, f: seq<Byte>)
    requires Fit(frames, cap) && i < |frames| && before == Stream(frames[i..]) + tail
    requires Follows(before, after, cap, kind, f) && Kind(frames[i].first) != 0
    ensures after == Stream(frames[i + 1..]) + tail
    ensures kind == Kind(frames[i].first) && f == FrameBytes(frames[i].first, frames[i].body)
  {
    hide SegmentOf, FrameBytes, Kind, Stream;
    assert frames[i..][0] == frames[i] && frames[i..][1..] == frames[i + 1..];
    FirstFrame(frames[i..], tail, cap);
  }

  /** And when nothing is left it cannot succeed. */
  lemma NoFrame(after: seq<Byte>, cap: nat, kind: int, f: seq<Byte>)
    ensures !Follows([], after, cap, kind, f)
  {
  }

  lemma {:induction false} WireGrows(a: seq<Event>, b: seq<Event>)
    requires a <= b
    ensures WireOf(a) <= WireOf(b)
  {
    if |a| < |b| {
      var n := |b| - 1;
      WireGrows(a, b[..n]);
    } else {
      assert a == b;
    }
  }

  /** One more packet, one more answer. */
  lemma OneRound(frames: seq<Frame>, pings: seq<bool>, base: seq<Byte>, before: seq<Event>, after: seq<Event>,
                 kind: int, f: seq<Byte>)
    returns (ping: bool)
    requires TraceOk(before) && TraceOk(after) && Owed(before) == None && Owed(after) == None
    requires CycleLog(before, after, kind, f) && kind > 0 && Answerable(f) && |pings| < |frames|
    requires f == FrameBytes(frames[|pings|].first, frames[|pings|].body)
    requires WireOf(before) == base + Replies(frames[..|pings|], pings)
    ensures WireOf(after) == base + Replies(frames[..|pings| + 1], pings + [ping])
  {
    hide TraceOk, WireOf, Owed, CycleLog, Answerable, FrameBytes, Replies, Answer, Ping;
    var i := |pings|;
    ping := OneCycle(before, after, kind, f);
    RepliesSnoc(frames[..i], pings, frames[i], ping);
    assert frames[..i + 1] == frames[..i] + [frames[i]];
    ConcatAssoc(base, Replies(frames[..i], pings), Answer(f) + Ping(ping));
  }

  function Least(a: nat, b: nat): nat { if a < b then a else b }

  /**
   * `MQTTRun` for a number of rounds, on a stream that begins with packets that fit, cut into chunks by
   * the transport in any way. As long as every cycle succeeds and the transport holds, each round takes
   * one packet off the stream, and what goes out is the answer to each packet in turn, with at most one
   * ping after each. Whatever comes behind the packets does not change what went out for them.
   */
  method Run(c: MqttClient, rounds: nat, ghost frames: seq<Frame>, ghost tail: seq<Byte>)
    returns (ghost ok: bool, ghost pings: seq<bool>)
    requires c.Valid() && Owed(c.log) == None
    requires c.net.pending == Stream(frames) + tail && Fit(frames, c.readbufSize)
    requires forall f :: f in frames ==> Kind(f.first) != 0 && Answerable(FrameBytes(f.first, f.body))
    modifies c`log, c`lastSent, c`lastReceived, c`pingOutstanding, c`isConnected, c`calls
    modifies c.buf, c.readbuf, c.handlers.slots
    modifies c.net`pending, c.net`answers, c.net`failed, c.net`wire, c.net`writeAnswers, c.net`now
    ensures c.Valid() && Owed(c.log) == None && (c.isConnected ==> old(c.isConnected))
    ensures ok ==>
              var n := Least(rounds, |frames|);
              |pings| == n && old(c.net.wire) + Replies(frames[..n], pings) <= c.net.wire
    ensures ok && rounds <= |frames| ==>
              && c.net.pending == Stream(frames[rounds..]) + tail
              && c.net.wire == old(c.net.wire) + Replies(frames[..rounds], pings)
    ensures ok && tail == [] ==> rounds <= |frames|
    ensures ok ==> c.isConnected == old(c.isConnected)
    ensures !ok ==> c.net.failed || !c.isConnected
  {
    hide StepOk, TraceOk, WireOf, Owed, Heard, PingAfter, ConnectedAfter, PacketKind, IsFrame, InMemory;
    hide CycleLog, Follows, Fit, Stream, Replies, Answerable, FrameBytes, Kind, Calls, Consistent, Quiet, PassResult;
    hide Unanswered, HoldsTooBig, TopicOf, Deliverable, Reaches, AnsweredIn, MqttClient.Explained, MqttClient.Blamed;
    ok, pings := !c.net.failed, [];
    var i := 0;
    ghost var said := WireOf(c.log);
    assert frames[0..] == frames;
    NoReplies(frames);
    while i < rounds
      invariant 0 <= i <= rounds && c.Valid() && Owed(c.log) == None
      invariant c.isConnected ==> old(c.isConnected)
      invariant ok ==> !c.net.failed && |pings| == Least(i, |frames|)
      invariant ok ==> said == WireOf(old(c.log)) + Replies(frames[..Least(i, |frames|)], pings)
      invariant ok ==> said <= WireOf(c.log)
      invariant ok && i <= |frames| ==> c.net.pending == Stream(frames[i..]) + tail && said == WireOf(c.log)
      invariant ok && tail == [] ==> i <= |frames|
      invariant ok ==> c.isConnected == old(c.isConnected)
      invariant !ok ==> c.net.failed || !c.isConnected
    {
      var now := c.net.Now();
      ghost var before, pending := c.log, c.net.pending;
      ghost var rc, kind, frame, reached, at;
      rc, kind, frame, reached, at := c.Cycle(now + 500 * 1000);
      WireGrows(before, c.log);
      if !(ok && !c.net.failed && PassResult(rc)) {
        ok := false;
      } else if i < |frames| {
        NextFrame(frames, tail, i, pending, c.net.pending, c.readbufSize, kind, frame);
        ghost var ping := OneRound(frames, pings, WireOf(old(c.log)), before, c.log, kind, frame);
        pings, said := pings + [ping], WireOf(c.log);
      } else if i == |frames| && tail == [] {
        NothingLeft(frames);
        NoFrame(c.net.pending, c.readbufSize, kind, frame);
      }
      i := i + 1;
    }
    if ok {
      ConcatAssoc(c.wire0, WireOf(old(c.log)), Replies(frames[..Least(rounds, |frames|)], pings));
    }
  }

  lemma NothingLeft(frames: seq<Frame>)
    ensures Stream(frames[|frames|..]) == []
  {
  }

  lemma NoReplies(frames: seq<Frame>)
    ensures Replies(frames[..0], []) == []
  {
  }
}
