/** The TLS byte stream and the clock, as the client sees them. */
module Transport {
  import opened Bytes

  function Min(a: int, b: int): int { if a < b then a else b }

  /**
   * How many of `len` bytes get through before an error, when `avail` can be moved: "call again" is
   * waited out, and chunks add up.
   */
  function Moved(answers: seq<int>, avail: nat, len: nat): (n: nat)
    ensures n <= len && n <= avail
    decreases |answers|
  {
    if len == 0 || answers == [] || answers[0] < 0 then 0
    else
      var n := Min(answers[0], Min(len, avail));
      n + Moved(answers[1..], avail - n, len - n)
  }

  /** The answers that are left after such a transfer. */
  function Rest(answers: seq<int>, avail: nat, len: nat): seq<int>
    decreases |answers|
  {
    if len == 0 || answers == [] then answers
    else if answers[0] < 0 then answers[1..]
    else
      var n := Min(answers[0], Min(len, avail));
      Rest(answers[1..], avail - n, len - n)
  }

  /** `b` is what is left of `a`. */
  ghost predicate Later(a: seq<int>, b: seq<int>) {
    |b| <= |a| && b == a[|a| - |b|..]
  }

  lemma LaterSelf(a: seq<int>)
    ensures Later(a, a)
  {
  }

  lemma LaterStill(a: seq<int>, b: seq<int>, c: seq<int>)
    requires Later(a, b) && Later(b, c)
    ensures Later(a, c)
  {
  }

  lemma {:induction false} RestIsLater(answers: seq<int>, avail: nat, len: nat)
    ensures Later(answers, Rest(answers, avail, len))
    ensures len > 0 && answers != [] ==> |Rest(answers, avail, len)| < |answers|
    decreases |answers|
  {
    if len > 0 && answers != [] && answers[0] >= 0 {
      var n := Min(answers[0], Min(len, avail));
      RestIsLater(answers[1..], avail - n, len - n);
    }
  }

  /** A transfer begun with what was left of `a` did not go through, and `b` is what it left. */
  ghost predicate Broke(a: seq<int>, b: seq<int>) {
    exists mid, len: nat :: Later(a, mid) && Moved(mid, len, len) < len && b == Rest(mid, len, len)
  }

  lemma BrokeEarlier(a: seq<int>, mid: seq<int>, b: seq<int>)
    requires Later(a, mid) && Broke(mid, b)
    ensures Broke(a, b)
  {
    hide Later, Moved, Rest;
    var m, len: nat :| Later(mid, m) && Moved(m, len, len) < len && b == Rest(m, len, len);
    LaterStill(a, mid, m);
  }

  lemma BrokeHere(a: seq<int>, mid: seq<int>, len: nat)
    requires Later(a, mid) && Moved(mid, len, len) < len
    ensures Broke(a, Rest(mid, len, len))
  {
  }

  /** Nothing is put down to the transport unless it was used, or had nothing left to answer. */
  lemma BrokeUsed(a: seq<int>, b: seq<int>)
    requires Broke(a, b) && a != []
    ensures |b| < |a|
  {
    hide Moved, Rest;
    var mid, len: nat :| Later(a, mid) && Moved(mid, len, len) < len && b == Rest(mid, len, len);
    RestIsLater(mid, len, len);
  }

  /** Enough answers without an error, and with something moved each time, get everything through. */
  lemma {:induction false} MovedAll(answers: seq<int>, avail: nat, len: nat)
    requires len <= avail && len <= |answers| && forall i :: 0 <= i < |answers| ==> answers[i] > 0
    ensures Moved(answers, avail, len) == len
    decreases |answers|
  {
    if len > 0 {
      var n := Min(answers[0], Min(len, avail));
      MovedAll(answers[1..], avail - n, len - n);
    }
  }

  /** One call of the library, seen from the transfer it is part of. */
  lemma MovedStep(answers: seq<int>, avail: nat, len: nat)
    ensures Moved(answers, avail, 0) == 0 && Rest(answers, avail, 0) == answers
    ensures answers == [] || answers[0] < 0 ==> Moved(answers, avail, len) == 0
    ensures len > 0 && answers != [] && answers[0] < 0 ==> Rest(answers, avail, len) == answers[1..]
    ensures answers == [] ==> Rest(answers, avail, len) == []
    ensures len > 0 && answers != [] && answers[0] >= 0 ==>
              var n := Min(answers[0], Min(len, avail));
              0 <= n <= len && n <= avail && Rest(answers, avail, len) == Rest(answers[1..], avail - n, len - n)
    ensures answers != [] && answers[0] >= 0 ==>
              var n := Min(answers[0], Min(len, avail));
              0 <= n <= len && n <= avail && Moved(answers, avail, len) == n + Moved(answers[1..], avail - n, len - n)
  {
  }

  lemma NextChunk(b: seq<Byte>, c: seq<Byte>, at: nat, total: nat, read: nat, all: seq<Byte>)
    requires |b| == |c| && at + total + read <= |b| && total + read <= |all|
    requires b[at..at + total] == all[..total] && c[at + total..at + total + read] == all[total..][..read]
    requires forall k :: 0 <= k < |b| && !(at + total <= k < at + total + read) ==> c[k] == b[k]
    ensures c[at..at + total + read] == all[..total + read]
  {
    assert c[at..at + total] == b[at..at + total];
    assert c[at..at + total + read] == c[at..at + total] + c[at + total..at + total + read];
  }

  /**
   * A connection. `pending` is what the peer has sent and nobody has read; `wire` is what this side
   * has written. `answers` and `writeAnswers` decide how the library behaves: a negative answer is an
   * error, 0 means "call again", a positive answer is the largest chunk moved. A connection whose
   * answers are used up reports an error.
   */
  class Network {
    var pending: seq<Byte>
    var answers: seq<int>
    var failed: bool
    var wire: seq<Byte>
    var writeAnswers: seq<int>
    var now: int

    constructor (pending: seq<Byte>, answers: seq<int>, writeAnswers: seq<int>, now: int)
      ensures this.pending == pending && this.answers == answers && this.writeAnswers == writeAnswers
      ensures !failed && wire == [] && this.now == now
    {
      this.pending, this.answers, this.writeAnswers := pending, answers, writeAnswers;
      this.failed, this.wire, this.now := false, [], now;
    }

    /** One `SSL_read`, or one call of a transport's `getfn`: -1, 0 for "call again", or the bytes read. */
    method Recv(buf: array<Byte>, at: nat, count: nat) returns (rc: int)
      requires 0 < count && at + count <= buf.Length
      modifies this`pending, this`answers, this`failed, buf
      ensures -1 <= rc <= count && rc <= old(|pending|)
      ensures rc == (if old(answers) == [] || old(answers)[0] < 0 then -1
                     else Min(old(answers)[0], Min(count, old(|pending|))))
      ensures answers == (if old(answers) == [] then [] else old(answers)[1..])
      ensures failed == (old(failed) || rc == -1)
      ensures pending == old(pending)[if rc > 0 then rc else 0..]
      ensures rc > 0 ==> buf[at..at + rc] == old(pending)[..rc]
      ensures forall k :: 0 <= k < buf.Length && !(at <= k < at + rc) ==> buf[k] == old(buf[k])
    {
      if |answers| == 0 {
        failed := true;
        return -1;
      }
      var a := answers[0];
      answers := answers[1..];
      if a < 0 {
        failed := true;
        return -1;
      }
      rc := if a < count then a else count;
      if |pending| < rc {
        rc := |pending|;
      }
      forall k | at <= k < at + rc {
        buf[k] := pending[k - at];
      }
      pending := pending[rc..];
    }

    /**
     * `mqtt_network_read`: keeps calling until `len` bytes have come or an error is met. `got` counts
     * the bytes that were taken from the peer either way.
     */
    method Read(buf: array<Byte>, at: nat, len: nat) returns (rc: int, ghost got: nat)
      requires at + len <= buf.Length
      modifies this`pending, this`answers, this`failed, buf
      ensures got == Moved(old(answers), old(|pending|), len)
      ensures got <= len && got <= old(|pending|) && pending == old(pending)[got..]
      ensures rc == (if got == len then len as int else -1)
      ensures failed == (old(failed) || got < len)
      ensures buf[at..at + got] == old(pending)[..got]
      ensures forall k :: 0 <= k < buf.Length && !(at <= k < at + got) ==> buf[k] == old(buf[k])
      ensures |answers| <= old(|answers|) && (0 < len == got ==> |answers| < old(|answers|))
    {
      hide Moved, Min, Rest;
      var total := 0;
      while total < len
        invariant 0 <= total <= len && total <= old(|pending|) && pending == old(pending)[total..]
        invariant failed == old(failed)
        invariant total + Moved(answers, |pending|, len - total) == Moved(old(answers), old(|pending|), len)
        invariant buf[at..at + total] == old(pending)[..total]
        invariant forall k :: 0 <= k < buf.Length && !(at <= k < at + total) ==> buf[k] == old(buf[k])
        invariant |answers| <= old(|answers|) && (0 < total ==> |answers| < old(|answers|))
        decreases |answers|
      {
        MovedStep(answers, |pending|, len - total);
        ghost var before := buf[..];
        var read := Recv(buf, at + total, len - total);
        if read <= 0 {
          if read == 0 {
            continue; // nothing came through this time
          }
          return -1, total;
        }
        NextChunk(before, buf[..], at, total, read, old(pending));
        total := total + read;
      }
      MovedStep(answers, |pending|, 0);
      rc, got := total, total;
    }

    /** `mqtt_network_write`: everything is written, or the call fails with `put` bytes on the wire. */
    method Write(buf: array<Byte>, at: nat, len: nat) returns (rc: int, ghost put: nat)
      requires at + len <= buf.Length
      modifies this`wire, this`writeAnswers
      ensures put == Moved(old(writeAnswers), len, len) && put <= len && rc == (if put == len then len as int else -1)
      ensures wire == old(wire) + buf[at..at + put]
      ensures writeAnswers == Rest(old(writeAnswers), len, len)
    {
      hide Moved, Rest;
      var total := 0;
      while total < len
        invariant 0 <= total <= len && wire == old(wire) + buf[at..at + total]
        invariant total + Moved(writeAnswers, len - total, len - total) == Moved(old(writeAnswers), len, len)
        invariant Rest(writeAnswers, len - total, len - total) == Rest(old(writeAnswers), len, len)
        decreases |writeAnswers|
      {
        MovedStep(writeAnswers, len - total, len - total);
        if |writeAnswers| == 0 {
          return -1, total;
        }
        var written := writeAnswers[0];
        writeAnswers := writeAnswers[1..];
        if written <= 0 {
          if written == 0 {
            continue; // nothing went out this time
          }
          return -1, total;
        }
        if len - total < written {
          written := len - total;
        }
        wire := wire + buf[at + total..at + total + written];
        assert buf[at..at + total + written] == buf[at..at + total] + buf[at + total..at + total + written];
        total := total + written;
      }
      MovedStep(writeAnswers, 0, 0);
      rc, put := total, total;
    }

    /** `gettimeofday`, in microseconds: time does not run backwards. */
    method Now() returns (t: int)
      modifies this`now
      ensures t == now && old(now) <= now
    {
      t := *;
      if t < now {
        t := now;
      }
      now := t;
    }

    /** `TimerIsExpired`: the end time is not in the future. */
    method Expired(end: int) returns (b: bool)
      modifies this`now
      ensures b == (end <= now) && old(now) <= now
    {
      var t := Now();
      b := end <= t;
    }
  }
}
