/**
 Frames on a byte stream: an 8-byte head that carries the length of the body, sent and
 received in whatever pieces the socket takes, with one budget of retries per frame.
 */
module Framing {
  import opened Base

  const HEAD_LEN := 8
  const RETRIES := 2000

  /** What the kernel answers to one `send` or `recv`. */
  datatype Answer = Moved(n: nat) | Again | Broken | Closed

  /** An answer cut to the room there is; a call that moves bytes moves at least one. */
  function Clip(a: Answer, room: nat): (r: Answer)
    requires room > 0
    ensures SameKind(r, a) && (r.Moved? ==> 1 <= r.n <= room)
  {
    if a.Moved? then Moved(if a.n == 0 then 1 else if a.n > room then room else a.n) else a
  }

  predicate SameKind(a: Answer, b: Answer) {
    a.Moved? == b.Moved? && a.Again? == b.Again? && a.Broken? == b.Broken?
  }

  /** From position `from` on, the log is what the kernel planned to answer, up to the sizes. */
  ghost predicate Tells(plan: nat -> Answer, log: seq<Answer>, from: nat) {
    forall i :: from <= i < |log| ==> SameKind(log[i], plan(i))
  }

  /** The body length in the head, little-endian. */
  function BodyLen(head: bytes): nat
    requires |head| >= HEAD_LEN
  {
    head[2] as nat + 256 * head[3] as nat
  }

  predicate IsFrame(f: bytes) { |f| >= HEAD_LEN && |f| == HEAD_LEN + BodyLen(f) }

  ghost predicate AllFrames(fs: seq<bytes>) { forall i :: 0 <= i < |fs| ==> IsFrame(fs[i]) }

  function Join(fs: seq<bytes>): bytes {
    if fs == [] then [] else fs[0] + Join(fs[1..])
  }

  // ---------- the answers of one frame ----------

  function Retried(log: seq<Answer>): (n: nat)
    ensures n <= |log|
  {
    if log == [] then 0 else Retried(log[..|log| - 1]) + if log[|log| - 1].Again? then 1 else 0
  }

  /** How many bytes the answers moved. */
  function Bytes(log: seq<Answer>): nat {
    if log == [] then 0
    else
      var last := log[|log| - 1];
      Bytes(log[..|log| - 1]) + if last.Moved? then last.n else 0
  }

  /** The last answer moved bytes, as it does when a loop ends because nothing is left to move. */
  predicate Ended(log: seq<Answer>) { log != [] && log[|log| - 1].Moved? && log[|log| - 1].n > 0 }

  /** No answer ended the connection. */
  ghost predicate Alive(log: seq<Answer>) { forall i :: 0 <= i < |log| ==> log[i].Moved? || log[i].Again? }

  /** No answer ended the connection, and the transient ones stayed within the budget. */
  ghost predicate Clean(log: seq<Answer>, budget: nat) { Alive(log) && Retried(log) <= budget }

  lemma {:induction false} RetriedConcat(a: seq<Answer>, b: seq<Answer>)
    ensures Retried(a + b) == Retried(a) + Retried(b)
  {
    if b == [] {
      assert a + b == a;
    } else {
      assert (a + b)[..|a + b| - 1] == a + b[..|b| - 1];
      RetriedConcat(a, b[..|b| - 1]);
    }
  }

  lemma {:induction false} BytesConcat(a: seq<Answer>, b: seq<Answer>)
    ensures Bytes(a + b) == Bytes(a) + Bytes(b)
  {
    if b == [] {
      assert a + b == a;
    } else {
      assert (a + b)[..|a + b| - 1] == a + b[..|b| - 1];
      BytesConcat(a, b[..|b| - 1]);
    }
  }

  lemma NoBytes()
    ensures Bytes([]) == 0
  {
  }

  lemma AliveConcat(a: seq<Answer>, b: seq<Answer>)
    ensures Alive(a + b) <==> Alive(a) && Alive(b)
  {
    var both := a + b;
    assert forall i :: 0 <= i < |a| ==> a[i] == both[i];
    assert forall i :: 0 <= i < |b| ==> b[i] == both[|a| + i];
  }

  lemma CleanConcat(a: seq<Answer>, b: seq<Answer>, budget: nat)
    requires Clean(a, budget)
    ensures Clean(a + b, budget) <==> Clean(b, budget - Retried(a))
  {
    hide Alive, Retried;
    RetriedConcat(a, b);
    AliveConcat(a, b);
  }

  lemma OneMore(log: seq<Answer>, answer: Answer)
    ensures Retried(log + [answer]) == Retried(log) + if answer.Again? then 1 else 0
    ensures Bytes(log + [answer]) == Bytes(log) + if answer.Moved? then answer.n else 0
  {
    assert (log + [answer])[..|log|] == log;
  }

  /** What `recv` makes of the plan: it cannot move bytes that are not there. */
  function Heard(a: Answer, want: nat, there: nat): (r: Answer)
    requires want > 0
    ensures r.Moved? ==> 1 <= r.n <= want && r.n <= there
    ensures there > 0 ==> SameKind(r, a)
  {
    if a.Moved? && there == 0 then Again else Clip(a, if there == 0 || want < there then want else there)
  }

  lemma TellsNothing(plan: nat -> Answer, log: seq<Answer>)
    ensures Tells(plan, log, |log|)
  {
  }

  lemma TellsMore(plan: nat -> Answer, log: seq<Answer>, answer: Answer, from: nat)
    requires SameKind(answer, plan(|log|))
    ensures Tells(plan, log, from) ==> Tells(plan, log + [answer], from)
  {
  }

  // ---------- sockets ----------

  class Socket {
    /** What the kernel answers to each call, in order; anything is possible. */
    const plan: nat -> Answer
    /** All that has been handed to the kernel for sending. */
    var wire: bytes
    /** All that the other side ever sends, and how much of it has been read. */
    const incoming: bytes
    var taken: nat
    /** The answers so far, to both kinds of call. */
    var log: seq<Answer>

    constructor (incoming: bytes, plan: nat -> Answer, past: seq<Answer>)
      ensures this.incoming == incoming && this.plan == plan && wire == [] && taken == 0 && log == past
    {
      this.incoming, this.plan, wire, taken, log := incoming, plan, [], 0, past;
    }

    /** One `send` with MSG_DONTWAIT: some of the bytes, or none and a reason. */
    method Send(data: bytes) returns (answer: Answer)
      requires data != []
      modifies this`wire, this`log
      ensures answer == Clip(plan(|old(log)|), |data|) && log == old(log) + [answer]
      ensures wire == if answer.Moved? then old(wire) + data[..answer.n] else old(wire)
    {
      answer := Clip(plan(|log|), |data|);
      if answer.Moved? {
        wire := wire + data[..answer.n];
      }
      log := log + [answer];
    }

    /** One `recv` with MSG_DONTWAIT; nothing moves when nothing is there. */
    method Recv(buf: array<byte>, at: nat, want: nat) returns (answer: Answer)
      requires 0 < want && at + want <= buf.Length && taken <= |incoming|
      modifies this`taken, this`log, buf
      ensures answer == Heard(plan(|old(log)|), want, |incoming| - old(taken)) && log == old(log) + [answer]
      ensures taken == (if answer.Moved? then old(taken) + answer.n else old(taken)) <= |incoming|
      ensures answer.Moved? ==> buf[at..at + answer.n] == incoming[old(taken)..taken]
      ensures forall i :: 0 <= i < buf.Length && !(at <= i < at + taken - old(taken)) ==> buf[i] == old(buf[i])
    {
      answer := Heard(plan(|log|), want, |incoming| - taken);
      if answer.Moved? {
        for i := 0 to answer.n
          modifies buf
          invariant buf[at..at + i] == incoming[taken..taken + i]
          invariant forall k :: 0 <= k < buf.Length && !(at <= k < at + i) ==> buf[k] == old(buf[k])
        {
          buf[at + i] := incoming[taken + i];
        }
        taken := taken + answer.n;
      }
      log := log + [answer];
    }

    // ---------- whole blocks ----------

    /**
     The sending loop. `times` is what is left of the budget; the block is out completely
     exactly when the answers were clean.
     */
    method SendBlock(data: bytes, times: nat) returns (total: nat, times': nat)
      modifies this`wire, this`log
      ensures total <= |data| && wire == old(wire) + data[..total]
      ensures |old(log)| <= |log| && log[..|old(log)|] == old(log)
      ensures Answered(log[|old(log)|..], |data|, times, total, times')
      ensures Tells(plan, log, |old(log)|)
    {
      hide Going, Answered, Tells, SameKind, Clip, Heard;
      total, times' := 0, times;
      ghost var start := |log|;
      Start(log, |data|, times);
      TellsNothing(plan, log);
      assert wire + data[..0] == wire;
      while total < |data|
        invariant total <= |data| && wire == old(wire) + data[..total]
        invariant start <= |log| && log[..start] == old(log) && Tells(plan, log, start)
        invariant Going(log[start..], |data|, times, total, times')
        decreases |data| - total, times'
      {
        ghost var so, sent := log[start..], wire;
        TellsMore(plan, log, Clip(plan(|log|), |data| - total), start);
        var answer := Send(data[total..]);
        Turn(log, start, so, answer, |data|, times, total, times');
        if answer.Again? && times' > 0 {
          times' := times' - 1;
        } else if answer.Moved? {
          assert sent + data[total..][..answer.n] == old(wire) + data[..total + answer.n];
          total := total + answer.n;
        } else {
          break;
        }
      }
      Gone(log[start..], |data|, times, times');
    }

    /**
     `tcp_send_protocol_cmd`: the head, then as much of `data` as the head announces, on one
     budget. What is on the wire afterwards is a front part of the frame, all of it exactly
     when the answers were clean.
     */
    method SendFrame(head: bytes, data: bytes) returns (ok: bool, ghost sent: nat)
      requires |head| == HEAD_LEN && BodyLen(head) <= |data|
      modifies this`wire, this`log
      ensures var frame := head + data[..BodyLen(head)];
        && IsFrame(frame) && sent <= |frame| && wire == old(wire) + frame[..sent]
        && (ok <==> sent == |frame|)
      ensures |old(log)| <= |log| && log[..|old(log)|] == old(log)
      ensures ok <==> Clean(log[|old(log)|..], 2000)
      ensures Bytes(log[|old(log)|..]) == sent && (ok ==> Ended(log[|old(log)|..]))
      ensures |log| - |old(log)| <= 8 + BodyLen(head) + 2001
      ensures Tells(plan, log, |old(log)|)
    {
      hide Clean, Retried, Bytes, Ended, SameKind;
      ghost var start := |log|;
      NoBytes();
      var total, times := SendBlock(head, RETRIES);
      ghost var first := log[start..];
      sent := total;
      FrontOfFrame(head, data[..BodyLen(head)], total, 0);
      if total != HEAD_LEN {
        return false, sent;
      }
      ghost var middle := |log|;
      var bodylen := BodyLen(head);
      total, times := SendBlock(data[..bodylen], times);
      FrontOfFrame(head, data[..bodylen], HEAD_LEN, total);
      BothParts(log, start, middle, first, RETRIES);
      ok := total == bodylen;
      sent := HEAD_LEN + total;
    }

    /** The receiving loop. */
    method RecvBlock(buf: array<byte>, at: nat, want: nat, times: nat) returns (total: nat, times': nat)
      requires at + want <= buf.Length && taken <= |incoming|
      modifies this`taken, this`log, buf
      ensures total <= want && taken == old(taken) + total <= |incoming|
      ensures buf[at..at + total] == incoming[old(taken)..taken]
      ensures forall i :: 0 <= i < buf.Length && !(at <= i < at + want) ==> buf[i] == old(buf[i])
      ensures |old(log)| <= |log| && log[..|old(log)|] == old(log)
      ensures Answered(log[|old(log)|..], want, times, total, times')
      ensures Tells(plan, log, |old(log)|) || (total < want && taken == |incoming|)
    {
      hide Going, Answered, Tells, SameKind, Clip, Heard, Landed;
      total, times' := 0, times;
      ghost var start, was, from := |log|, buf[..], taken;
      NothingLanded(was, at, want, incoming, from);
      Start(log, want, times);
      TellsNothing(plan, log);
      while total < want
        invariant total <= want && taken == old(taken) + total <= |incoming|
        invariant Landed(buf[..], was, at, want, total, incoming, from)
        invariant start <= |log| && log[..start] == old(log)
        invariant Tells(plan, log, start) || (total < want && taken == |incoming|)
        invariant Going(log[start..], want, times, total, times')
        decreases want - total, times'
      {
        ghost var so, had := log[start..], buf[..];
        if taken < |incoming| {
          TellsMore(plan, log, Heard(plan(|log|), want - total, |incoming| - taken), start);
        }
        var answer := Recv(buf, at + total, want - total);
        Turn(log, start, so, answer, want, times, total, times');
        assert !answer.Moved? ==> buf[..] == had;
        if answer.Again? && times' > 0 {
          times' := times' - 1;
        } else if answer.Moved? {
          MoreLanded(had, buf[..], was, at, want, total, answer.n, incoming, from);
          total := total + answer.n;
        } else {
          break;
        }
      }
      Gone(log[start..], want, times, times');
      LandedFacts(buf[..], was, at, want, total, incoming, from);
    }

    /**
     `tcp_recv_protocol_cmd`: the next frame of the stream, head and body, exactly when the
     answers were clean. The caller's buffers must have room for it.
     */
    method RecvFrame(head: array<byte>, data: array<byte>, base: nat) returns (ok: bool)
      requires head.Length >= HEAD_LEN && (head == data ==> base >= HEAD_LEN)
      requires taken <= |incoming|
      requires |incoming| - taken >= HEAD_LEN ==> base + BodyLen(incoming[taken..]) <= data.Length
      modifies this`taken, this`log, head, data
      ensures old(taken) <= taken <= |incoming|
      ensures ok ==> IsFrame(incoming[old(taken)..taken])
      ensures ok ==> head[..HEAD_LEN] == incoming[old(taken)..][..HEAD_LEN]
      ensures ok ==> base + taken - old(taken) - HEAD_LEN <= data.Length && data[base..base + taken - old(taken) - HEAD_LEN] == incoming[old(taken) + HEAD_LEN..taken]
      ensures ok && head == data ==> forall i :: base + taken - old(taken) - HEAD_LEN <= i < data.Length ==> data[i] == old(data[i])
      ensures !ok ==> !exists n :: old(taken) <= n <= taken && IsFrame(incoming[old(taken)..n])
      ensures |old(log)| <= |log| && log[..|old(log)|] == old(log)
      ensures ok <==> Clean(log[|old(log)|..], 2000)
      ensures Bytes(log[|old(log)|..]) == taken - old(taken) && (ok ==> Ended(log[|old(log)|..]))
      ensures |log| - |old(log)| <= taken - old(taken) + 2001
      ensures Tells(plan, log, |old(log)|) || (!ok && taken == |incoming|)
    {
      hide Clean, Retried, Bytes, Ended, SameKind;
      ghost var start, from := |log|, taken;
      NoBytes();
      var total, times := RecvBlock(head, 0, HEAD_LEN, RETRIES);
      ghost var first := log[start..];
      if total != HEAD_LEN {
        return false;
      }
      ghost var middle := |log|;
      ghost var frame := incoming[from..];
      assert head[0..HEAD_LEN] == frame[..HEAD_LEN];
      var bodylen := BodyLen(head[..HEAD_LEN]);
      assert bodylen == BodyLen(frame);
      total, times := RecvBlock(data, base, bodylen, times);
      assert head[..HEAD_LEN] == frame[..HEAD_LEN];
      BothParts(log, start, middle, first, RETRIES);
      ok := total == bodylen;
    }
  }

  lemma FrontOfFrame(head: bytes, body: bytes, a: nat, b: nat)
    requires a <= |head| && b <= |body| && (b > 0 ==> a == |head|)
    ensures (head + body)[..a + b] == head[..a] + body[..b]
  {
  }

  lemma BothParts(log: seq<Answer>, start: nat, middle: nat, first: seq<Answer>, budget: nat)
    requires start <= middle <= |log| && first == log[start..middle] && Clean(first, budget)
    ensures Clean(log[start..], budget) <==> Clean(log[middle..], budget - Retried(first))
    ensures Bytes(log[start..]) == Bytes(first) + Bytes(log[middle..])
    ensures Ended(log[middle..]) || (log[middle..] == [] && Ended(first)) ==> Ended(log[start..])
  {
    assert log[start..] == first + log[middle..];
    BytesConcat(first, log[middle..]);
    CleanConcat(first, log[middle..], budget);
  }

  /** `total` of the bytes wanted have been put into the buffer, and nothing outside the wanted range has changed. */
  ghost predicate Landed(now: bytes, was: bytes, at: nat, want: nat, total: nat, incoming: bytes, from: nat) {
    && |now| == |was| && total <= want && at + want <= |was| && from + total <= |incoming|
    && now[at..at + total] == incoming[from..from + total]
    && forall i :: 0 <= i < |was| && !(at <= i < at + want) ==> now[i] == was[i]
  }

  lemma NothingLanded(was: bytes, at: nat, want: nat, incoming: bytes, from: nat)
    requires at + want <= |was| && from <= |incoming|
    ensures Landed(was, was, at, want, 0, incoming, from)
  {
  }

  lemma MoreLanded(had: bytes, now: bytes, was: bytes, at: nat, want: nat, total: nat, n: nat, incoming: bytes, from: nat)
    requires Landed(had, was, at, want, total, incoming, from) && |now| == |had| && total + n <= want && from + total + n <= |incoming|
    requires now[at + total..at + total + n] == incoming[from + total..from + total + n]
    requires forall i :: 0 <= i < |had| && !(at + total <= i < at + total + n) ==> now[i] == had[i]
    ensures Landed(now, was, at, want, total + n, incoming, from)
  {
    assert now[at..at + total] == had[at..at + total];
    assert now[at..at + total + n] == now[at..at + total] + now[at + total..at + total + n];
  }

  lemma LandedFacts(now: bytes, was: bytes, at: nat, want: nat, total: nat, incoming: bytes, from: nat)
    requires Landed(now, was, at, want, total, incoming, from)
    ensures |now| == |was| && at + total <= |now| && from + total <= |incoming| && now[at..at + total] == incoming[from..from + total]
    ensures forall i :: 0 <= i < |was| && !(at <= i < at + want) ==> now[i] == was[i]
  {
  }

  /**
   What a loop over a block of `size` bytes has done when it ends: all bytes are moved exactly
   when the answers were clean, and then with the last of them; `left` of the budget remains.
   */
  ghost predicate Answered(answers: seq<Answer>, size: nat, times: nat, total: nat, left: nat) {
    && (total == size <==> Clean(answers, times)) && Bytes(answers) == total
    && (total == size ==> Ended(answers) || answers == []) && (size == 0 ==> answers == [])
    && (total == size ==> left == times - Retried(answers) && |answers| <= total + Retried(answers))
    && |answers| <= total + times + 1
  }

  /** The same while it still goes on. */
  ghost predicate Going(answers: seq<Answer>, size: nat, times: nat, total: nat, left: nat) {
    && total <= size && Clean(answers, times) && Bytes(answers) == total && left == times - Retried(answers)
    && |answers| <= total + Retried(answers)
    && (total == size ==> Ended(answers) || answers == []) && (size == 0 ==> answers == [])
  }

  lemma Start(log: seq<Answer>, size: nat, times: nat)
    ensures Going(log[|log|..], size, times, 0, times)
  {
    assert log[|log|..] == [];
  }

  lemma Gone(answers: seq<Answer>, size: nat, times: nat, left: nat)
    ensures Going(answers, size, times, size, left) ==> Answered(answers, size, times, size, left)
  {
  }

  /** One more answer. */
  lemma Turn(log: seq<Answer>, start: nat, so: seq<Answer>, answer: Answer, size: nat, times: nat, total: nat, left: nat)
    requires start < |log| && log[start..|log| - 1] == so && log[|log| - 1] == answer
    requires Going(so, size, times, total, left) && total < size && (answer.Moved? ==> 1 <= answer.n <= size - total)
    ensures log[..start] == log[..|log| - 1][..start]
    ensures answer.Again? && left > 0 ==> Going(log[start..], size, times, total, left - 1)
    ensures answer.Moved? ==> Going(log[start..], size, times, total + answer.n, left)
    ensures !answer.Moved? && !(answer.Again? && left > 0) ==> Answered(log[start..], size, times, total, left)
  {
    assert log[start..] == so + [answer];
    OneMore(so, answer);
    OneAlive(so, answer);
  }

  lemma OneAlive(so: seq<Answer>, answer: Answer)
    ensures Alive(so + [answer]) <==> Alive(so) && (answer.Moved? || answer.Again?)
  {
    assert (so + [answer])[|so|] == answer;
    assert forall i :: 0 <= i < |so| ==> (so + [answer])[i] == so[i];
  }

  // ---------- sequences of frames ----------

  lemma {:induction false} JoinSnoc(fs: seq<bytes>, f: bytes)
    ensures Join(fs + [f]) == Join(fs) + f
  {
    if fs == [] {
      assert fs + [f] == [f];
      assert Join([f]) == f + Join([]);
    } else {
      assert (fs + [f])[1..] == fs[1..] + [f];
      JoinSnoc(fs[1..], f);
      Assoc(fs[0], Join(fs[1..]), f);
    }
  }

  /** A frame is recognised by its front, whatever follows it. */
  lemma FrameInFront(f: bytes, rest: bytes, n: nat)
    requires IsFrame(f) && n <= |f + rest|
    ensures IsFrame((f + rest)[..n]) <==> n == |f|
  {
    var s := f + rest;
    assert s[..|f|] == f;
    if n >= HEAD_LEN {
      assert BodyLen(s[..n]) == BodyLen(f);
    }
  }

  /** No two sequences of frames have the same bytes. */
  lemma {:induction false} FramesDelimitThemselves(fs: seq<bytes>, gs: seq<bytes>)
    requires AllFrames(fs) && AllFrames(gs) && Join(fs) == Join(gs)
    ensures fs == gs
  {
    if fs != [] && gs != [] {
      FrameInFront(fs[0], Join(fs[1..]), |gs[0]|);
      assert (gs[0] + Join(gs[1..]))[..|gs[0]|] == gs[0];
      assert fs[0] == Join(fs)[..|fs[0]|] && gs[0] == Join(gs)[..|gs[0]|];
      assert Join(fs)[|fs[0]|..] == Join(fs[1..]) && Join(gs)[|gs[0]|..] == Join(gs[1..]);
      FramesDelimitThemselves(fs[1..], gs[1..]);
    }
  }

  // ---------- the calls behind a log ----------

  /** The answers of one call after the other. */
  function Concat(calls: seq<seq<Answer>>): seq<Answer> {
    if calls == [] then [] else Concat(calls[..|calls| - 1]) + calls[|calls| - 1]
  }

  /** A call that moved a frame of `n` bytes: on a clean budget of its own, up to its last byte. */
  ghost predicate Delivers(call: seq<Answer>, n: nat) {
    Clean(call, RETRIES) && Bytes(call) == n && Ended(call)
  }

  /** A call that did not: its own answers were not clean. */
  ghost predicate Fails(call: seq<Answer>, n: nat) { !Clean(call, RETRIES) && Bytes(call) < n }

  /** One call per frame, up to and including the first that fails. */
  ghost predicate CallsFor(calls: seq<seq<Answer>>, frames: seq<bytes>, done: nat) {
    && done <= |frames| && |calls| == (if done < |frames| then done + 1 else done)
    && (forall j :: 0 <= j < done ==> Delivers(calls[j], |frames[j]|))
    && (done < |frames| ==> Fails(calls[done], |frames[done]|))
  }

  ghost predicate AllClean(calls: seq<seq<Answer>>) { forall j :: 0 <= j < |calls| ==> Clean(calls[j], RETRIES) }

  /** All frames went through exactly when every call was clean by itself. */
  lemma DoneWhenClean(calls: seq<seq<Answer>>, frames: seq<bytes>, done: nat)
    requires CallsFor(calls, frames, done)
    ensures done == |frames| <==> AllClean(calls)
  {
  }

  lemma ConcatSnoc(calls: seq<seq<Answer>>, call: seq<Answer>)
    ensures Concat(calls + [call]) == Concat(calls) + call
  {
    assert (calls + [call])[..|calls|] == calls;
  }

  lemma {:induction false} ConcatCons(calls: seq<seq<Answer>>)
    requires calls != []
    ensures Concat(calls) == calls[0] + Concat(calls[1..])
  {
    if |calls| == 1 {
      assert calls[..0] == [] && calls[1..] == [];
      assert [] + calls[0] == calls[0] + [];
    } else {
      var front, last := calls[..|calls| - 1], calls[|calls| - 1];
      ConcatCons(front);
      assert calls[1..][..|calls| - 2] == front[1..] && front[0] == calls[0];
      assert (calls[0] + Concat(front[1..])) + last == calls[0] + (Concat(front[1..]) + last);
    }
  }

  lemma EndsMoveBytes(a: seq<Answer>, d: seq<Answer>)
    ensures d != [] && Ended(a + d) ==> Bytes(a + d) > Bytes(a)
    ensures Bytes(a + d) >= Bytes(a)
  {
    BytesConcat(a, d);
    assert d != [] ==> (a + d)[|a + d| - 1] == d[|d| - 1];
  }

  lemma LongerMovesMore(log: seq<Answer>, i: nat, j: nat)
    requires i < j <= |log| && Ended(log[..j])
    ensures Bytes(log[..j]) > Bytes(log[..i])
  {
    EndsMoveBytes(log[..i], log[i..j]);
    assert log[..j] == log[..i] + log[i..j];
  }

  /** Where a call ends is determined by the answers: with the answer that moves the frame's last byte. */
  lemma OneEnd(a: seq<Answer>, x: seq<Answer>, b: seq<Answer>, y: seq<Answer>)
    requires a + x == b + y && Ended(a) && Ended(b) && Bytes(a) == Bytes(b)
    ensures a == b && x == y
  {
    var whole := a + x;
    assert a == whole[..|a|] && b == whole[..|b|];
    if |a| < |b| {
      LongerMovesMore(whole, |a|, |b|);
    } else if |b| < |a| {
      LongerMovesMore(whole, |b|, |a|);
    }
    assert x == whole[|a|..] && y == whole[|b|..];
  }

  lemma FailsOrDelivers(a: seq<Answer>, b: seq<Answer>, y: seq<Answer>, n: nat)
    requires a == b + y && Delivers(b, n)
    ensures !Fails(a, n)
  {
    EndsMoveBytes(b, y);
  }

  /** A log splits into the calls for given frames in one way only. */
  lemma {:induction false} CallsDetermined(calls: seq<seq<Answer>>, others: seq<seq<Answer>>, frames: seq<bytes>, done: nat, done': nat)
    requires CallsFor(calls, frames, done) && CallsFor(others, frames, done') && Concat(calls) == Concat(others)
    ensures done == done' && calls == others
    decreases |frames|
  {
    hide Clean, Bytes, Ended, Concat;
    if frames != [] {
      ConcatCons(calls);
      ConcatCons(others);
      var a, x, b, y := calls[0], calls[1..], others[0], others[1..];
      NothingJoined();
      assert done == 0 ==> x == [] && a + [] == a;
      assert done' == 0 ==> y == [] && b + [] == b;
      if done > 0 && done' > 0 {
        OneEnd(a, Concat(x), b, Concat(y));
        CallsDetermined(x, y, frames[1..], done - 1, done' - 1);
        assert calls == [a] + x && others == [b] + y;
      } else if done' > 0 {
        FailsOrDelivers(a, b, Concat(y), |frames[0]|);
      } else if done > 0 {
        FailsOrDelivers(b, a, Concat(x), |frames[0]|);
      } else {
        assert calls == [a] && others == [b];
      }
    }
  }

  /** Sends frame after frame until one fails; `calls` are the answers to each call. */
  method SendFrames(socket: Socket, frames: seq<bytes>) returns (count: nat, ghost torn: bytes, ghost calls: seq<seq<Answer>>)
    requires AllFrames(frames)
    modifies socket`wire, socket`log
    ensures count <= |frames| && socket.wire == old(socket.wire) + (Join(frames[..count]) + torn)
    ensures count == |frames| ==> torn == []
    ensures count < |frames| ==> |torn| < |frames[count]| && torn == frames[count][..|torn|]
    ensures socket.log == old(socket.log) + Concat(calls) && CallsFor(calls, frames, count)
    ensures Tells(socket.plan, socket.log, |old(socket.log)|)
  {
    hide Clean, Bytes, Ended, Join;
    count, torn, calls := 0, [], [];
    ghost var before, past := socket.wire, socket.log;
    NothingJoined();
    assert frames[..0] == [] && before + ([] + []) == before && past + [] == past;
    while count < |frames|
      invariant count <= |frames| && torn == [] && |calls| == count
      invariant socket.wire == before + Join(frames[..count])
      invariant |past| <= |socket.log| && Tells(socket.plan, socket.log, |past|)
      invariant socket.log == past + Concat(calls) && forall j :: 0 <= j < count ==> Delivers(calls[j], |frames[j]|)
    {
      ghost var start, so := |socket.log|, socket.log;
      var f := frames[count];
      assert f == f[..HEAD_LEN] + f[HEAD_LEN..][..BodyLen(f[..HEAD_LEN])];
      var ok; ghost var sent;
      ok, sent := socket.SendFrame(f[..HEAD_LEN], f[HEAD_LEN..]);
      CallAdded(past, calls, so, socket.log);
      calls := calls + [socket.log[start..]];
      if !ok {
        torn := f[..sent];
        Assoc(before, Join(frames[..count]), torn);
        return;
      }
      assert f[..sent] == f;
      JoinSnoc(frames[..count], f);
      assert frames[..count + 1] == frames[..count] + [f];
      Assoc(before, Join(frames[..count]), f);
      count := count + 1;
    }
    assert frames[..count] == frames && Join(frames) + [] == Join(frames);
  }

  lemma NothingJoined()
    ensures Join([]) == [] && Concat([]) == []
  {
  }

  lemma CallAdded(past: seq<Answer>, calls: seq<seq<Answer>>, so: seq<Answer>, log: seq<Answer>)
    requires so == past + Concat(calls) && |so| <= |log| && log[..|so|] == so
    ensures log == past + Concat(calls + [log[|so|..]])
  {
    ConcatSnoc(calls, log[|so|..]);
    assert log == so + log[|so|..];
  }

  /** Receives frame after frame until as many have come as were sent, or one fails. */
  method RecvFrames(socket: Socket, buf: array<byte>, many: nat, ghost frames: seq<bytes>, ghost rest: bytes)
    returns (got: seq<bytes>, ghost calls: seq<seq<Answer>>)
    requires AllFrames(frames) && many == |frames| && socket.taken <= |socket.incoming|
    requires socket.incoming[socket.taken..] == Join(frames) + rest
    requires forall i :: 0 <= i < |frames| ==> |frames[i]| <= buf.Length
    modifies socket`taken, socket`log, buf
    ensures |got| <= many && got == frames[..|got|]
    ensures |got| == many ==> got == frames && socket.taken <= |socket.incoming| && socket.incoming[socket.taken..] == rest
    ensures socket.log == old(socket.log) + Concat(calls) && CallsFor(calls, frames, |got|)
    ensures Tells(socket.plan, socket.log, |old(socket.log)|)
  {
    hide Clean, Bytes, Ended, Concat, Join;
    NothingJoined();
    got, calls := [], [];
    ghost var from, past := socket.taken, socket.log;
    assert frames[0..] == frames && past + [] == past;
    while |got| < many
      invariant |got| <= many && got == frames[..|got|] && from <= socket.taken <= |socket.incoming|
      invariant socket.incoming[socket.taken..] == Join(frames[|got|..]) + rest
      invariant |calls| == |got| && socket.log == past + Concat(calls)
      invariant |past| <= |socket.log| && Tells(socket.plan, socket.log, |past|)
      invariant forall j :: 0 <= j < |got| ==> Delivers(calls[j], |frames[j]|)
    {
      ghost var f, left := frames[|got|], frames[|got| + 1..];
      ghost var at, so := socket.taken, socket.log;
      NextFrame(socket.incoming, at, f, left, frames[|got|..], rest);
      var ok := socket.RecvFrame(buf, buf, HEAD_LEN);
      CallAdded(past, calls, so, socket.log);
      calls := calls + [socket.log[|so|..]];
      if !ok {
        TooFew(socket.incoming, at, socket.taken, f, Join(left) + rest);
        return;
      }
      FrameInFront(f, Join(left) + rest, socket.taken - at);
      Taken(socket.incoming, at, socket.taken, f, Join(left) + rest, buf[..]);
      got := got + [buf[..HEAD_LEN + BodyLen(buf[..HEAD_LEN])]];
    }
    assert frames[|got|..] == [] && [] + rest == rest;
  }

  lemma TooFew(incoming: bytes, at: nat, now: nat, f: bytes, rest: bytes)
    requires at <= now <= |incoming| && incoming[at..] == f + rest && IsFrame(f)
    requires !exists n :: at <= n <= now && IsFrame(incoming[at..n])
    ensures now - at < |f|
  {
    assert |incoming[at..]| == |f| + |rest|;
    assert incoming[at..at + |f|] == incoming[at..][..|f|] == f;
  }

  lemma NextFrame(incoming: bytes, at: nat, f: bytes, left: seq<bytes>, frames: seq<bytes>, rest: bytes)
    requires at <= |incoming| && frames != [] && frames[0] == f && frames[1..] == left && IsFrame(f)
    requires incoming[at..] == Join(frames) + rest
    ensures incoming[at..] == f + (Join(left) + rest) && |incoming| - at >= |f| && BodyLen(incoming[at..]) == BodyLen(f)
  {
    Assoc(f, Join(left), rest);
  }

  lemma Taken(incoming: bytes, at: nat, now: nat, f: bytes, rest: bytes, buf: bytes)
    requires at <= now <= |incoming| && incoming[at..] == f + rest && IsFrame(f)
    requires IsFrame((f + rest)[..now - at]) <==> now - at == |f|
    requires IsFrame(incoming[at..now]) && now - at <= |buf|
    requires buf[..HEAD_LEN] == incoming[at..][..HEAD_LEN] && buf[HEAD_LEN..now - at] == incoming[at + HEAD_LEN..now]
    ensures now - at == |f| && buf[..HEAD_LEN + BodyLen(buf[..HEAD_LEN])] == f && incoming[now..] == rest
  {
    assert incoming[at..now] == (f + rest)[..now - at];
    assert f == (f + rest)[..|f|] == incoming[at..now];
    assert incoming[now..] == incoming[at..][now - at..];
    assert incoming[at..now] == incoming[at..][..HEAD_LEN] + incoming[at + HEAD_LEN..now];
    assert buf[..now - at] == buf[..HEAD_LEN] + buf[HEAD_LEN..now - at];
  }

  /**
   Any frames, whatever the kernels on both sides plan to answer: the receiver reads what the
   sender wrote, and recovers exactly the frames sent with nothing left over if and only if
   each call, of either side, was clean by itself.
   */
  method Relay(frames: seq<bytes>, buf: array<byte>, sendPlan: nat -> Answer, recvPlan: nat -> Answer)
    returns (sent: nat, got: seq<bytes>, sender: Socket, receiver: Socket, ghost torn: bytes, ghost sends: seq<seq<Answer>>, ghost recvs: seq<seq<Answer>>)
    requires AllFrames(frames) && forall i :: 0 <= i < |frames| ==> |frames[i]| <= buf.Length
    modifies buf
    ensures |got| <= sent <= |frames| && got == frames[..|got|]
    ensures receiver.incoming == sender.wire == Join(frames[..sent]) + torn
    ensures if sent < |frames| then |torn| < |frames[sent]| && torn == frames[sent][..|torn|] else torn == []
    ensures sender.log == Concat(sends) && CallsFor(sends, frames, sent) && Tells(sendPlan, sender.log, 0)
    ensures receiver.log == Concat(recvs) && CallsFor(recvs, frames[..sent], |got|) && Tells(recvPlan, receiver.log, 0)
    ensures AllClean(sends) && AllClean(recvs) <==> got == frames
    ensures got == frames ==> receiver.taken == |receiver.incoming|
  {
    hide Join, Concat, CallsFor, AllClean;
    sender := new Socket([], sendPlan, []);
    sent, torn, sends := SendFrames(sender, frames);
    DoneWhenClean(sends, frames, sent);
    assert [] + (Join(frames[..sent]) + torn) == Join(frames[..sent]) + torn;
    assert [] + Concat(sends) == Concat(sends);
    receiver := new Socket(sender.wire, recvPlan, []);
    assert receiver.incoming[0..] == receiver.incoming;
    got, recvs := RecvFrames(receiver, buf, sent, frames[..sent], torn);
    DoneWhenClean(recvs, frames[..sent], |got|);
    assert [] + Concat(recvs) == Concat(recvs);
    assert frames[..sent][..|got|] == frames[..|got|];
    assert sent == |frames| ==> frames[..sent] == frames;
  }
}
