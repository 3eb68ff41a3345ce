/** The broker's main loop, one method for each thing it does, refining the step relation. */
module MainLoop {
  import opened Base
  import opened Framing
  import opened Protocol
  import opened Broker

  class Server {
    var nodes: seq<Node>
    var table: map<int, nat>
    var conns: seq<Conn>
    /** The receive buffer, shared by all connections. */
    const rbuf: array<byte>
    /** The shared-memory records and their number, as the configuration gives them. */
    const shm: Option<bytes>
    const shmNum: byte
    /** What the kernel answers to each `send` and `recv`, and what it has answered so far. */
    const plan: nat -> Answer
    var log: seq<Answer>

    constructor (nodes: seq<Node>, shm: Option<bytes>, shmNum: byte, plan: nat -> Answer)
      requires Configured(nodes) && forall k :: 0 <= k < |nodes| ==> nodes[k].connfd == 0
      requires shm.Some? ==> |shm.value| < 65536
      ensures Inv(View()) && Ready() && this.nodes == nodes && conns == [] && fresh(rbuf)
      ensures this.plan == plan && log == []
    {
      this.nodes, table, conns, log := nodes, map[], [], [];
      this.shm, this.shmNum, this.plan := shm, shmNum, plan;
      rbuf := new byte[MAX_CMD_LEN](_ => 0);
    }

    ghost function View(): State
      reads this
    {
      State(nodes, table, conns)
    }

    predicate Ready()
    {
      rbuf.Length == MAX_CMD_LEN && (shm.Some? ==> |shm.value| < 65536)
    }

    /** The answers since `past` are those of these calls, and what the kernel planned. */
    ghost predicate Logged(past: seq<Answer>, calls: seq<seq<Answer>>)
      reads this
    {
      log == past + Concat(calls) && Tells(plan, log, |past|)
    }

    /** `tcp_send_protocol_cmd` on a node's descriptor; `call` are the kernel's answers. */
    method SendTo(k: nat, head: bytes, data: bytes, ghost s: State, ghost f: bytes) returns (ok: bool, ghost t: bytes, ghost call: seq<Answer>)
      requires s == View() && Indexed(s) && k < |nodes| && |head| == HEAD_LEN && BodyLen(head) <= |data|
      requires f == head + data[..BodyLen(head)]
      modifies this`conns, this`log
      ensures IsFrame(f) && log == old(log) + call && Tells(plan, log, |old(log)|)
      ensures ok <==> s.nodes[k].connfd < 0 || (Connected(s, k) && Clean(call, RETRIES))
      ensures ok ==> Goes(s, k, call, |f|) && View() == SentTo(s, k, f)
      ensures !ok ==> Stops(s, k, call, |f|) && FrontOf(t, f) && View() == TornAt(s, k, t)
    {
      hide Clean, Bytes, Ended, SameKind;
      t, call := [], [];
      NoAnswer(plan, log);
      var fd := nodes[k].connfd;
      if fd < 0 {
        return true, t, call;
      }
      if fd !in table {
        // not a connected socket: the first call fails
        return false, t, call;
      }
      var c := table[fd];
      var socket := new Socket([], plan, log);
      socket.wire := conns[c].wire;
      ghost var sent;
      ok, sent := socket.SendFrame(head, data);
      call := socket.log[|log|..];
      assert socket.log == log + call;
      log := socket.log;
      if ok {
        assert f[..sent] == f;
        conns := conns[c := Conn(socket.wire, conns[c].whole + [head + data[..BodyLen(head)]], conns[c].torn)];
      } else {
        t := f[..sent];
        conns := conns[c := Conn(socket.wire, conns[c].whole, (head + data[..BodyLen(head)])[..|socket.wire| - |conns[c].wire|])];
      }
    }

    /**
     All copies for one node, `before` being what has gone out so far. On failure `sent` ends
     just before the copy that failed, and `calls` with it.
     */
    method BroadcastToNode(k: nat, ids: bytes, head: bytes, data: bytes, ghost s: State, ghost f: bytes, ghost before: seq<nat>, ghost past: seq<Answer>, ghost made: seq<seq<Answer>>)
      returns (ok: bool, ghost sent: seq<nat>, ghost t: bytes, ghost calls: seq<seq<Answer>>)
      requires Indexed(s) && k < |s.nodes| && Along(s, before, f, made) && View() == SentAlong(s, before, f) && Logged(past, made)
      requires |head| == HEAD_LEN && BodyLen(head) <= |data| && f == head + data[..BodyLen(head)]
      modifies this`conns, this`log
      ensures Logged(past, calls)
      ensures ok ==> sent == before + Repeat(k, Copies(ids, s.nodes[k].id)) && View() == SentAlong(s, sent, f) && Along(s, sent, f, calls)
      ensures !ok ==> exists n :: 0 <= n < Copies(ids, s.nodes[k].id) && sent == before + Repeat(k, n)
      ensures !ok ==> StopsAt(s, sent, f, calls, k) && FrontOf(t, f) && View() == TornAt(SentAlong(s, sent, f), k, t)
    {
      hide Goes, Stops, Logged, SentAlong, FrontOf, Concat, Tells;
      ok, sent, t, calls := true, before, [], made;
      assert before + Repeat(k, 0) == before && ids[..0] == [];
      for i := 0 to |ids|
        invariant ok && Along(s, sent, f, calls) && View() == SentAlong(s, sent, f) && Logged(past, calls)
        invariant sent == before + Repeat(k, Copies(ids[..i], s.nodes[k].id))
      {
        OneMoreId(ids, i, s.nodes[k].id);
        if ids[i] as int == nodes[k].id {
          ghost var now, so := View(), log;
          ghost var call;
          LoggedFacts(past, calls);
          ok, t, call := SendTo(k, head, data, now, f);
          LogMore(plan, past, calls, so, log, call);
          LoggedIs(past, calls + [call]);
          SameNode(s, now, k, call, |f|);
          calls := calls + [call];
          if !ok {
            return;
          }
          GoesIsReached(s, k, call, |f|);
          OneMoreCopy(s, before, k, Copies(ids[..i], s.nodes[k].id), f);
          sent := sent + [k];
        }
      }
      assert ids[..|ids|] == ids;
    }

    lemma LoggedFacts(past: seq<Answer>, calls: seq<seq<Answer>>)
      requires Logged(past, calls)
      ensures log == past + Concat(calls) && Tells(plan, log, |past|)
    {
    }

    lemma LoggedIs(past: seq<Answer>, calls: seq<seq<Answer>>)
      requires log == past + Concat(calls) && Tells(plan, log, |past|)
      ensures Logged(past, calls)
    {
    }

    /** The loop over the ring. On failure `sent` ends just before the copy that failed. */
    method BroadcastAll(ids: bytes, head: bytes, data: bytes, ghost s: State, ghost f: bytes)
      returns (ret: int, ghost sent: seq<nat>, ghost t: bytes, ghost calls: seq<seq<Answer>>)
      requires s == View() && Indexed(s) && Configured(s.nodes) && IsFrame(f)
      requires |head| == HEAD_LEN && BodyLen(head) <= |data| && f == head + data[..BodyLen(head)]
      modifies this`conns, this`log
      ensures sent <= Recipients(s.nodes, ids) && Logged(old(log), calls)
      ensures ret == 0 ==> sent == Recipients(s.nodes, ids) && View() == SentAlong(s, sent, f) && Along(s, sent, f, calls)
      ensures ret != 0 ==> ret < 0 && |sent| < |Recipients(s.nodes, ids)| && FrontOf(t, f)
      ensures ret != 0 ==> (forall i :: 0 <= i < |sent| ==> sent[i] < |s.nodes|)
      ensures ret != 0 ==> var k := Recipients(s.nodes, ids)[|sent|];
        ret == -s.nodes[k].id && StopsAt(s, sent, f, calls, k) && View() == TornAt(SentAlong(s, sent, f), k, t)
    {
      hide SentAlong, TornAt, FrontOf, Logged, Goes, Stops;
      ret, sent, t, calls := 0, [], [], [];
      NothingSent(s, f);
      NoAnswer(plan, log);
      LoggedIs(log, []);
      for k := 0 to |nodes|
        invariant Along(s, sent, f, calls) && View() == SentAlong(s, sent, f) && Logged(old(log), calls)
        invariant sent == Recipients(s.nodes[..k], ids)
      {
        ghost var before := sent;
        var ok;
        ok, sent, t, calls := BroadcastToNode(k, ids, head, data, s, f, before, old(log), calls);
        RecipientsUpTo(s.nodes, ids, k);
        if !ok {
          NextIs(Recipients(s.nodes, ids), before, sent, k, Copies(ids, s.nodes[k].id));
          ListedIdIsByte(ids, s.nodes[k].id);
          return -nodes[k].id, sent, t, calls;
        }
      }
      assert s.nodes[..|nodes|] == s.nodes;
    }

    /** `broadcast_cmd`: nodes in ring order, and for each the listed ids in order. */
    method BroadcastCmd(ghost s: State) returns (ret: int, ghost m: nat, ghost t: bytes, ghost calls: seq<seq<Answer>>)
      requires s == View() && Sane(s) && Ready() && HEAD_LEN + BodyLen(rbuf[..]) <= MAX_CMD_LEN
      modifies this`conns, this`log, rbuf
      ensures Logged(old(log), calls)
      ensures var f, ks := Forwarded(old(rbuf[..])), Recipients(s.nodes, ListedIds(old(rbuf[..])));
        && (ret == 0 ==> Along(s, ks, f, calls) && View() == SentAlong(s, ks, f))
        && (ret != 0 ==> ret < 0 && m < |ks| && StopsAt(s, ks[..m], f, calls, ks[m]) && FrontOf(t, f))
        && (ret != 0 ==> ret == -s.nodes[ks[m]].id && View() == TornAt(SentAlong(s, ks[..m], f), ks[m], t))
    {
      hide SentAlong, TornAt, FrontOf, Forwarded, Logged, Goes, Stops;
      ghost var was := rbuf[..];
      var num, skip := Rewrite(rbuf);
      var ids, head, data := rbuf[HEAD_LEN..][..num], rbuf[..HEAD_LEN], rbuf[HEAD_LEN + skip..];
      assert ids == ListedIds(was);
      ghost var sent;
      ret, sent, t, calls := BroadcastAll(ids, head, data, s, Forwarded(was));
      m := |sent|;
      assert Recipients(s.nodes, ids)[..m] == sent;
    }

    /** A new connection; the node that bears the peer's name takes its descriptor. */
    method Accept(path: bytes, fd: int, ghost s: State)
      requires s == View() && (fd < 0 || (fd > 0 && fd !in table))
      modifies this`nodes, this`table, this`conns
      ensures View() == if fd < 0 then s else Accepted(s, path, fd)
    {
      if fd < 0 {
        return;
      }
      table, conns := table[fd := |conns|], conns + [FRESH];
      for k := 0 to |nodes|
        modifies this`nodes
        invariant |nodes| == |s.nodes|
        invariant forall j :: 0 <= j < |nodes| ==> nodes[j] == if j < k then AdoptOne(s.nodes[j], path, fd) else s.nodes[j]
      {
        if NameMatches(nodes[k].name, path) {
          nodes := nodes[k := nodes[k].(connfd := fd)];
        }
      }
      assert nodes == Adopt(s.nodes, path, fd);
    }

    /** `close_s` on a node's descriptor. */
    method CloseNode(k: nat, ghost s: State)
      requires s == View() && Indexed(s) && k < |nodes|
      modifies this`nodes, this`table
      ensures View() == Dropped(s, k)
    {
      var fd := nodes[k].connfd;
      if fd > 0 {
        table := table - {fd};
      }
      nodes := nodes[k := nodes[k].(connfd := -1)];
    }

    /** `find_node_by_id`. */
    method FindNode(id: int) returns (k: nat)
      ensures k <= |nodes| && forall j :: 0 <= j < k ==> nodes[j].id != id
      ensures k < |nodes| ==> nodes[k].id == id
    {
      k := 0;
      while k < |nodes| && nodes[k].id != id
        invariant k <= |nodes| && forall j :: 0 <= j < k ==> nodes[j].id != id
      {
        k := k + 1;
      }
    }

    /** A broadcast; a node whose send failed is looked up by the id returned and closed. */
    method PassOn(ghost s: State) returns (ghost calls: seq<seq<Answer>>)
      requires s == View() && Sane(s) && Ready() && HEAD_LEN + BodyLen(rbuf[..]) <= MAX_CMD_LEN
      modifies this, rbuf
      ensures Carried(s, View(), ListedIds(old(rbuf[..])), Forwarded(old(rbuf[..])), calls) && Logged(old(log), calls)
    {
      hide SentAlong, TornAt, Forwarded, Recipients, Goes, Stops, Concat;
      ghost var ids, f := ListedIds(rbuf[..]), Forwarded(rbuf[..]);
      var ret; ghost var m, t;
      ret, m, t, calls := BroadcastCmd(s);
      if ret < 0 {
        var k := FindNode(-ret);
        ghost var ks := Recipients(s.nodes, ids);
        DistinctIds(s.nodes);
        assert s.nodes[ks[m]].id == -ret && k == ks[m];
        CloseNode(k, View());
        CutShort(s, View(), ids, f, m, t, calls);
      }
    }

    /** `parser_reserve_cmd`: one reply to the node that asked, if the command has one. */
    method Reply(k: nat, cmdid: byte, ghost s: State) returns (ok: bool, ghost t: bytes, ghost calls: seq<seq<Answer>>)
      requires s == View() && Indexed(s) && Ready() && k < |nodes|
      modifies this`conns, this`log
      ensures Logged(old(log), calls) && Replied(ReplyFrame(shm, shmNum, cmdid), s, k, View(), calls, ok)
      ensures !ok ==> ReplyFrame(shm, shmNum, cmdid).Some? && ReplyFails(s, View(), k, ReplyFrame(shm, shmNum, cmdid).value, t)
    {
      hide Goes, Stops, Tells, FrontOf;
      ok, t, calls := true, [], [];
      NoAnswer(plan, log);
      ghost var call, so, r := [], log, ReplyFrame(shm, shmNum, cmdid);
      if cmdid == GET_SHM_INFO {
        if shm.Some? {
          var head := HeadOf(|shm.value|, SEND_RESERVE, cmdid, 0);
          assert shm.value[..BodyLen(head)] == shm.value;
          ok, t, call := SendTo(k, head, shm.value, s, head + shm.value);
          calls := [call];
        }
      } else if cmdid == GET_SHM_NUM {
        var head := HeadOf(1, SEND_RESERVE, cmdid, 0);
        assert [shmNum][..BodyLen(head)] == [shmNum];
        ok, t, call := SendTo(k, head, [shmNum], s, head + [shmNum]);
        calls := [call];
      }
      if r.Some? {
        LogMore(plan, so, [], so, log, call);
        assert [] + [call] == calls;
        assert ok || ReplyFails(s, View(), k, r.value, t);
      }
    }

    /** The next frame of a connection, in the zeroed receive buffer. */
    method Receive(incoming: bytes) returns (ok: bool, ghost f: bytes, ghost answers: seq<Answer>)
      requires Ready() && (|incoming| >= HEAD_LEN ==> HEAD_LEN + BodyLen(incoming) <= MAX_CMD_LEN)
      modifies this`log, rbuf
      ensures log == old(log) + answers && (ok <==> Clean(answers, RETRIES))
      ensures Tells(plan, log, |old(log)|) || (!ok && !HoldsFrame(incoming))
      ensures ok ==> Received(f, incoming) && rbuf[..] == Buffered(f)
    {
      hide Clean, SameKind;
      for i := 0 to rbuf.Length
        modifies rbuf
        invariant forall k :: 0 <= k < i ==> rbuf[k] == 0
      {
        rbuf[i] := 0;
      }
      ghost var zeros := rbuf[..];
      var socket := new Socket(incoming, plan, log);
      assert incoming[0..] == incoming;
      ok := socket.RecvFrame(rbuf, rbuf, HEAD_LEN);
      f, answers := incoming[..socket.taken], socket.log[|log|..];
      assert socket.log == log + answers;
      log := socket.log;
      if !ok && socket.taken == |incoming| {
        Starved(incoming);
      }
      if ok {
        assert incoming[0..socket.taken] == f && incoming[0..] == incoming;
        assert forall k :: |f| <= k < MAX_CMD_LEN ==> rbuf[k] == zeros[k];
        BufferHolds(rbuf[..], f);
      }
    }

    /**
     A ready node: its frame is received and dispatched. `clean` is false exactly when a reply
     to a reserved command fails after `t`, which the loop does not look at. `answers` are
     those to the receive, `calls` those to the sends behind it.
     */
    method Serve(k: nat, incoming: bytes, ghost s: State)
      returns (clean: bool, ghost got: Option<bytes>, ghost t: bytes, ghost answers: seq<Answer>, ghost calls: seq<seq<Answer>>)
      requires s == View() && Sane(s) && Ready() && k < |nodes| && nodes[k].connfd > 0
      requires |incoming| >= HEAD_LEN ==> HEAD_LEN + BodyLen(incoming) <= MAX_CMD_LEN
      modifies this, rbuf
      ensures log == old(log) + (answers + Concat(calls))
      ensures Tells(plan, log, |old(log)|) || (got.None? && !HoldsFrame(incoming))
      ensures got.Some? <==> Clean(answers, RETRIES)
      ensures got.None? ==> clean && calls == [] && View() == Dropped(s, k)
      ensures got.Some? ==> Received(got.value, incoming) && Dispatched(shm, shmNum, s, k, got.value, View(), calls)
      ensures clean ==> Step(s, View())
      ensures !clean ==> got.Some? && got.value[4] == 0 && ReplyFrame(shm, shmNum, got.value[5]).Some?
      ensures !clean ==> ReplyFails(s, View(), k, ReplyFrame(shm, shmNum, got.value[5]).value, t)
    {
      hide Carried, Forwarded, Step, Clean, Tells, Replied, Concat;
      clean, got, t, calls := true, None, [], [];
      ghost var past := log;
      var ok; ghost var f;
      ok, f, answers := Receive(incoming);
      ghost var middle := log;
      if !ok {
        NothingCalled(answers);
        CloseNode(k, s);
        IsDrop(s, k);
        return;
      }
      got := Some(f);
      BufferedFacts(f);
      var kind := rbuf[4];
      if kind == SEND_RESERVE {
        clean, t, calls := Reply(k, rbuf[5], s);
        ReplyIsStep(ReplyFrame(shm, shmNum, f[5]), s, k, View(), calls, clean);
      } else if kind == SEND_SERIAL {
        IsIdle(s);
        NoCalls(plan, log);
      } else {
        calls := PassOn(s);
        CarriedIsStep(s, View(), ListedIds(Buffered(f)), Forwarded(Buffered(f)), calls);
      }
      BothLogged(plan, past, answers, middle, calls, log);
    }

    /** One event; one that the kernel cannot report changes nothing. `told` are the answers it takes. */
    method Handle(e: Event, ghost s: State) returns (ghost told: seq<Answer>)
      requires s == View() && Sane(s) && Ready()
      modifies this, rbuf
      ensures log == old(log) + told && (Tells(plan, log, |old(log)|) || !FrameThere(e))
      ensures Effect(shm, shmNum, s, e, View(), told) && Sane(View())
    {
      hide Step, Dispatched, AnyStep, Tells, Clean, Concat;
      told := [];
      NoAnswer(plan, log);
      var possible := IsPossible(e);
      if possible {
        match e {
          case Timeout =>
          case Connects(path, fd) => Accept(path, fd, s);
          case Arrives(k, incoming) =>
            var clean; ghost var got, t, answers, calls;
            clean, got, t, answers, calls := Serve(k, incoming, s);
            told := answers + Concat(calls);
            NothingCalled(answers);
            if got.Some? {
              assert Served(shm, shmNum, s, k, incoming, got.value, View(), answers, calls);
            }
        }
      }
      EffectIsStep(shm, shmNum, s, e, View(), told);
      AnyStepExtends(s, View());
    }

    /** The main loop over the events the kernel reports: one state, and the answers taken, behind each of them. */
    method Run(events: seq<Event>) returns (ghost run: seq<State>, ghost tolds: seq<seq<Answer>>)
      requires Sane(View()) && Ready()
      modifies this, rbuf
      ensures |run| == |events| + 1 && run[0] == old(View()) && run[|events|] == View()
      ensures Follows(shm, shmNum, run, events, tolds) && IsAnyRun(run)
      ensures log == old(log) + Concat(tolds)
      ensures (forall i :: 0 <= i < |events| ==> FrameThere(events[i])) ==> Tells(plan, log, |old(log)|)
      ensures Sane(View()) && forall j, k :: 0 <= j < |run| && 0 <= k && HasConnected(run, j, k) ==> Reached(run[j], k)
    {
      hide Effect, AnyStep, Sane, Tells, Concat, HasConnected, Reached;
      run, tolds := [View()], [];
      NoCalls(plan, log);
      assert log + [] == log;
      for i := 0 to |events|
        invariant Sane(View()) && |run| == i + 1 && run[0] == old(View()) && run[i] == View()
        invariant Follows(shm, shmNum, run, events, tolds) && log == old(log) + Concat(tolds)
        invariant (forall j :: 0 <= j < i ==> FrameThere(events[j])) ==> Tells(plan, log, |old(log)|)
      {
        ghost var so := log;
        ghost var told := Handle(events[i], View());
        FollowsOn(shm, shmNum, run, events, tolds, View(), told);
        ConcatSnoc(tolds, told);
        assert (old(log) + Concat(tolds)) + told == old(log) + (Concat(tolds) + told);
        TellsTwice(plan, old(log), so, log);
        run, tolds := run + [View()], tolds + [told];
      }
      FollowsIsRun(shm, shmNum, run, events, tolds);
      forall j, k | 0 <= j < |run| && 0 <= k && HasConnected(run, j, k) ensures Reached(run[j], k) {
        OnceConnected(run, j, k);
      }
    }

    method IsPossible(e: Event) returns (r: bool)
      ensures r <==> Possible(View(), e)
    {
      match e
      case Timeout => r := true;
      case Connects(_, fd) => r := fd < 0 || (fd > 0 && fd !in table);
      case Arrives(k, incoming) =>
        r := k < |nodes| && nodes[k].connfd > 0 && (|incoming| >= HEAD_LEN ==> HEAD_LEN + BodyLen(incoming) <= MAX_CMD_LEN);
    }
  }

  /** The receive buffer around a frame. */
  function Buffered(f: bytes): (b: bytes)
    requires |f| <= MAX_CMD_LEN
    ensures |b| == MAX_CMD_LEN && b[..|f|] == f
  {
    f + Zeros(MAX_CMD_LEN - |f|)
  }

  lemma BufferHolds(buf: bytes, f: bytes)
    requires |buf| == MAX_CMD_LEN && HEAD_LEN <= |f| <= MAX_CMD_LEN
    requires buf[..HEAD_LEN] == f[..HEAD_LEN] && buf[HEAD_LEN..|f|] == f[HEAD_LEN..] && forall k :: |f| <= k < MAX_CMD_LEN ==> buf[k] == 0
    ensures buf == Buffered(f)
  {
    assert buf[|f|..] == Zeros(MAX_CMD_LEN - |f|);
    assert f == f[..HEAD_LEN] + f[HEAD_LEN..];
    assert buf == (buf[..HEAD_LEN] + buf[HEAD_LEN..|f|]) + buf[|f|..];
  }

  lemma BufferedFacts(f: bytes)
    requires IsFrame(f) && |f| <= MAX_CMD_LEN
    ensures BodyLen(Buffered(f)) == BodyLen(f) && Buffered(f)[4] == f[4] && Buffered(f)[5] == f[5]
  {
    var b := Buffered(f);
    assert forall i :: 0 <= i < HEAD_LEN ==> b[i] == b[..|f|][i];
  }

  // the cases of the step relation

  lemma IsIdle(s: State)
    ensures Step(s, s)
  {
  }

  lemma IsDrop(s: State, k: nat)
    requires k < |s.nodes| && s.nodes[k].connfd > 0
    ensures Step(s, Dropped(s, k))
  {
  }

  lemma IsAccept(s: State, path: bytes, fd: int)
    requires fd > 0 && fd !in s.table
    ensures Step(s, Accepted(s, path, fd))
  {
  }

  lemma IsReply(s: State, k: nat, f: bytes)
    requires k < |s.nodes| && IsFrame(f)
    ensures Step(s, SentTo(s, k, f))
  {
  }

  lemma IsBroadcast(s: State, s': State, ids: bytes, f: bytes)
    requires IsFrame(f) && Broadcasts(s, s', ids, f)
    ensures Step(s, s')
  {
  }

  // ---------- events and what they do ----------

  /** What `select` reports: nothing, a peer at the listening socket, or bytes from a node. */
  datatype Event = Timeout | Connects(path: bytes, fd: int) | Arrives(k: nat, incoming: bytes)

  /** The kernel hands out descriptors that are not open, and reports open ones; frames fit the receive buffer. */
  predicate Possible(s: State, e: Event) {
    match e
    case Timeout => true
    case Connects(_, fd) => fd < 0 || (fd > 0 && fd !in s.table)
    case Arrives(k, incoming) =>
      && k < |s.nodes| && s.nodes[k].connfd > 0
      && (|incoming| >= HEAD_LEN ==> HEAD_LEN + BodyLen(incoming) <= MAX_CMD_LEN)
  }

  predicate Received(f: bytes, incoming: bytes) { IsFrame(f) && |f| <= MAX_CMD_LEN && f <= incoming }

  ghost predicate HoldsFrame(incoming: bytes) { exists n :: 0 <= n <= |incoming| && IsFrame(incoming[..n]) }

  ghost predicate FrameThere(e: Event) { e.Arrives? ==> HoldsFrame(e.incoming) }

  lemma Starved(incoming: bytes)
    requires !exists n :: 0 <= n <= |incoming| && IsFrame(incoming[0..n])
    ensures !HoldsFrame(incoming)
  {
    assert forall n :: 0 <= n <= |incoming| ==> incoming[..n] == incoming[0..n];
  }

  // ---------- the answers behind sends ----------

  /** A send that succeeds: nothing to do on a closed descriptor, or a clean call that moves the frame. */
  ghost predicate Goes(s: State, k: nat, call: seq<Answer>, n: nat) {
    Reached(s, k) && if s.nodes[k].connfd < 0 then call == [] else Delivers(call, n)
  }

  /** A send that fails: on no connection, or by a call that is not clean. */
  ghost predicate Stops(s: State, k: nat, call: seq<Answer>, n: nat) {
    k < |s.nodes| && s.nodes[k].connfd >= 0 && if Connected(s, k) then Fails(call, n) else call == []
  }

  /** Sends along `ks` that all succeed, with the answers to each. */
  ghost predicate Along(s: State, ks: seq<nat>, f: bytes, calls: seq<seq<Answer>>) {
    IsFrame(f) && |calls| == |ks| && forall i :: 0 <= i < |ks| ==> ks[i] < |s.nodes| && Goes(s, ks[i], calls[i], |f|)
  }

  /** Sends along `ks` that succeed, and one more, to `k`, that fails. */
  ghost predicate StopsAt(s: State, ks: seq<nat>, f: bytes, calls: seq<seq<Answer>>, k: nat) {
    |calls| == |ks| + 1 && Along(s, ks, f, calls[..|ks|]) && Stops(s, k, calls[|ks|], |f|)
  }

  /** A broadcast with the answers to its sends. */
  ghost predicate Carried(s: State, s': State, ids: bytes, f: bytes, calls: seq<seq<Answer>>) {
    var ks := Recipients(s.nodes, ids);
    || (Along(s, ks, f, calls) && s' == SentAlong(s, ks, f))
    || (exists m: nat, t: bytes :: CarriedTo(s, s', ks, f, m, t, calls))
  }

  ghost predicate CarriedTo(s: State, s': State, ks: seq<nat>, f: bytes, m: nat, t: bytes, calls: seq<seq<Answer>>) {
    BreaksAt(s, s', ks, f, m, t) && StopsAt(s, ks[..m], f, calls, ks[m])
  }

  lemma SameNode(s: State, now: State, k: nat, call: seq<Answer>, n: nat)
    requires now.nodes == s.nodes && now.table == s.table && |now.conns| == |s.conns|
    ensures Goes(s, k, call, n) == Goes(now, k, call, n) && Stops(s, k, call, n) == Stops(now, k, call, n)
  {
  }

  lemma GoesIsReached(s: State, k: nat, call: seq<Answer>, n: nat)
    ensures Goes(s, k, call, n) ==> Reached(s, k)
  {
  }

  lemma AlongIsReached(s: State, ks: seq<nat>, f: bytes, calls: seq<seq<Answer>>)
    requires Along(s, ks, f, calls)
    ensures forall i :: 0 <= i < |ks| ==> Reached(s, ks[i])
  {
    forall i | 0 <= i < |ks| ensures Reached(s, ks[i]) {
      GoesIsReached(s, ks[i], calls[i], |f|);
    }
  }

  lemma CutShort(s: State, s': State, ids: bytes, f: bytes, m: nat, t: bytes, calls: seq<seq<Answer>>)
    requires m < |Recipients(s.nodes, ids)| && FrontOf(t, f)
    requires var ks := Recipients(s.nodes, ids); StopsAt(s, ks[..m], f, calls, ks[m]) && s' == FailedAt(SentAlong(s, ks[..m], f), ks[m], t)
    ensures Carried(s, s', ids, f, calls)
  {
    var ks := Recipients(s.nodes, ids);
    AlongIsReached(s, ks[..m], f, calls[..m]);
    assert forall i :: 0 <= i < m ==> ks[i] == ks[..m][i];
    assert BreaksAt(s, s', ks, f, m, t);
    assert CarriedTo(s, s', ks, f, m, t, calls);
  }

  lemma CarriedIsBroadcast(s: State, s': State, ids: bytes, f: bytes, calls: seq<seq<Answer>>)
    requires Carried(s, s', ids, f, calls)
    ensures Broadcasts(s, s', ids, f) && IsFrame(f)
  {
    var ks := Recipients(s.nodes, ids);
    if Along(s, ks, f, calls) && s' == SentAlong(s, ks, f) {
      AlongIsReached(s, ks, f, calls);
    } else {
      var m: nat, t: bytes :| CarriedTo(s, s', ks, f, m, t, calls);
      assert BreaksAt(s, s', ks, f, m, t);
    }
  }

  lemma CarriedIsStep(s: State, s': State, ids: bytes, f: bytes, calls: seq<seq<Answer>>)
    requires Carried(s, s', ids, f, calls)
    ensures Step(s, s')
  {
    CarriedIsBroadcast(s, s', ids, f, calls);
    IsBroadcast(s, s', ids, f);
  }

  /** What a reserved command does: nothing, or one reply with its answers. */
  ghost predicate Replied(r: Option<bytes>, s: State, k: nat, s': State, calls: seq<seq<Answer>>, ok: bool) {
    if r.None? then ok && s' == s && calls == []
    else
      && |calls| == 1 && k < |s.nodes|
      && (if ok then Goes(s, k, calls[0], |r.value|) && s' == SentTo(s, k, r.value)
          else Stops(s, k, calls[0], |r.value|) && exists t: bytes :: ReplyFails(s, s', k, r.value, t))
  }

  lemma ReplyIsStep(r: Option<bytes>, s: State, k: nat, s': State, calls: seq<seq<Answer>>, ok: bool)
    requires Replied(r, s, k, s', calls, ok) && (r.Some? ==> IsFrame(r.value))
    ensures AnyStep(s, s') && (ok ==> Step(s, s'))
  {
    hide Step;
    IsIdle(s);
    if r.Some? {
      if ok {
        IsReply(s, k, r.value);
      }
    }
  }

  // ---------- logs ----------

  lemma NoAnswer(plan: nat -> Answer, log: seq<Answer>)
    ensures Tells(plan, log, |log|) && log == log + [] && log == log + Concat([])
  {
  }

  lemma NothingCalled(answers: seq<Answer>)
    ensures answers + Concat([]) == answers
  {
  }

  lemma NoCalls(plan: nat -> Answer, log: seq<Answer>)
    ensures Concat([]) == [] && log + Concat([]) == log && Tells(plan, log, |log|)
  {
  }

  lemma LogMore(plan: nat -> Answer, past: seq<Answer>, calls: seq<seq<Answer>>, so: seq<Answer>, log: seq<Answer>, call: seq<Answer>)
    requires so == past + Concat(calls) && log == so + call && Tells(plan, so, |past|) && Tells(plan, log, |so|)
    ensures log == past + Concat(calls + [call]) && Tells(plan, log, |past|)
  {
    ConcatSnoc(calls, call);
    TellsTwice(plan, past, so, log);
  }

  lemma TellsTwice(plan: nat -> Answer, past: seq<Answer>, so: seq<Answer>, log: seq<Answer>)
    requires |past| <= |so| && so <= log
    ensures Tells(plan, so, |past|) && Tells(plan, log, |so|) ==> Tells(plan, log, |past|)
  {
    assert forall i :: 0 <= i < |so| ==> so[i] == log[i];
  }

  lemma BothLogged(plan: nat -> Answer, past: seq<Answer>, answers: seq<Answer>, middle: seq<Answer>, calls: seq<seq<Answer>>, log: seq<Answer>)
    requires middle == past + answers && log == middle + Concat(calls)
    ensures log == past + (answers + Concat(calls))
    ensures Tells(plan, middle, |past|) && Tells(plan, log, |middle|) ==> Tells(plan, log, |past|)
  {
    TellsTwice(plan, past, middle, log);
  }

  // ---------- what events do ----------

  /** What a frame from node `k` does, by its kind, and the answers to the sends that it takes. */
  ghost predicate Dispatched(shm: Option<bytes>, num: byte, s: State, k: nat, f: bytes, s': State, calls: seq<seq<Answer>>)
    requires shm.Some? ==> |shm.value| < 65536
  {
    && IsFrame(f) && |f| <= MAX_CMD_LEN && k < |s.nodes|
    && if f[4] == 0 then exists ok :: Replied(ReplyFrame(shm, num, f[5]), s, k, s', calls, ok)
       else if f[4] == 2 then s' == s && calls == []
       else HEAD_LEN + BodyLen(Buffered(f)) <= MAX_CMD_LEN && Carried(s, s', ListedIds(Buffered(f)), Forwarded(Buffered(f)), calls)
  }

  /** A frame that was received by clean answers, and dispatched. */
  ghost predicate Served(shm: Option<bytes>, num: byte, s: State, k: nat, incoming: bytes, f: bytes, s': State, answers: seq<Answer>, calls: seq<seq<Answer>>)
    requires shm.Some? ==> |shm.value| < 65536
  {
    Clean(answers, RETRIES) && Received(f, incoming) && Dispatched(shm, num, s, k, f, s', calls)
  }

  /** What an event does, given the kernel's answers to the calls it takes. */
  ghost predicate Effect(shm: Option<bytes>, num: byte, s: State, e: Event, s': State, told: seq<Answer>)
    requires shm.Some? ==> |shm.value| < 65536
  {
    if !Possible(s, e) then s' == s && told == []
    else
      match e
      case Timeout => s' == s && told == []
      case Connects(path, fd) => s' == (if fd < 0 then s else Accepted(s, path, fd)) && told == []
      case Arrives(k, incoming) =>
        || (s' == Dropped(s, k) && !Clean(told, RETRIES))
        || (exists f, answers, calls :: Served(shm, num, s, k, incoming, f, s', answers, calls) && told == answers + Concat(calls))
  }

  /** Every state but the first is what the event before it makes of the state before it. */
  ghost predicate Follows(shm: Option<bytes>, num: byte, run: seq<State>, events: seq<Event>, tolds: seq<seq<Answer>>)
    requires shm.Some? ==> |shm.value| < 65536
  {
    && 0 < |run| <= |events| + 1 && |tolds| == |run| - 1
    && forall i :: 0 <= i < |tolds| ==> Effect(shm, num, run[i], events[i], run[i + 1], tolds[i])
  }

  lemma DispatchedIsStep(shm: Option<bytes>, num: byte, s: State, k: nat, f: bytes, s': State, calls: seq<seq<Answer>>)
    requires (shm.Some? ==> |shm.value| < 65536) && Dispatched(shm, num, s, k, f, s', calls)
    ensures AnyStep(s, s')
  {
    hide Step, Carried, Replied, Forwarded;
    if f[4] == SEND_RESERVE {
      var ok :| Replied(ReplyFrame(shm, num, f[5]), s, k, s', calls, ok);
      ReplyIsStep(ReplyFrame(shm, num, f[5]), s, k, s', calls, ok);
    } else if f[4] == SEND_SERIAL {
      IsIdle(s);
    } else {
      CarriedIsStep(s, s', ListedIds(Buffered(f)), Forwarded(Buffered(f)), calls);
    }
  }

  lemma EffectIsStep(shm: Option<bytes>, num: byte, s: State, e: Event, s': State, told: seq<Answer>)
    requires (shm.Some? ==> |shm.value| < 65536) && Effect(shm, num, s, e, s', told)
    ensures AnyStep(s, s')
  {
    hide Dispatched, Step, Clean, Concat;
    IsIdle(s);
    if Possible(s, e) {
      match e
      case Timeout =>
      case Connects(path, fd) => if fd > 0 { IsAccept(s, path, fd); }
      case Arrives(k, incoming) =>
        IsDrop(s, k);
        if s' != Dropped(s, k) {
          var f, answers, calls :| Served(shm, num, s, k, incoming, f, s', answers, calls) && told == answers + Concat(calls);
          DispatchedIsStep(shm, num, s, k, f, s', calls);
        }
    }
  }

  lemma FollowsOn(shm: Option<bytes>, num: byte, run: seq<State>, events: seq<Event>, tolds: seq<seq<Answer>>, s: State, told: seq<Answer>)
    requires (shm.Some? ==> |shm.value| < 65536) && |run| <= |events| && Follows(shm, num, run, events, tolds)
    requires Effect(shm, num, run[|run| - 1], events[|run| - 1], s, told)
    ensures Follows(shm, num, run + [s], events, tolds + [told])
  {
    hide Effect;
    var longer, more := run + [s], tolds + [told];
    forall i | 0 <= i < |more| ensures Effect(shm, num, longer[i], events[i], longer[i + 1], more[i]) {
      assert i < |tolds| ==> Effect(shm, num, run[i], events[i], run[i + 1], tolds[i]);
    }
  }

  lemma FollowsIsRun(shm: Option<bytes>, num: byte, run: seq<State>, events: seq<Event>, tolds: seq<seq<Answer>>)
    requires (shm.Some? ==> |shm.value| < 65536) && Follows(shm, num, run, events, tolds)
    ensures IsAnyRun(run)
  {
    hide Effect, AnyStep;
    forall i | 0 <= i < |run| - 1 ensures AnyStep(run[i], run[i + 1]) {
      EffectIsStep(shm, num, run[i], events[i], run[i + 1], tolds[i]);
    }
  }

  lemma DistinctIds(nodes: seq<Node>)
    requires Configured(nodes)
    ensures forall j, k :: 0 <= j < |nodes| && 0 <= k < |nodes| && nodes[j].id == nodes[k].id ==> j == k
  {
  }

  lemma NothingSent(s: State, f: bytes)
    ensures SentAlong(s, [], f) == s
  {
  }

  lemma NextIs(ks: seq<nat>, before: seq<nat>, sent: seq<nat>, k: nat, all: nat)
    requires before + Repeat(k, all) <= ks && exists n :: 0 <= n < all && sent == before + Repeat(k, n)
    ensures sent <= ks && |sent| < |ks| && ks[|sent|] == k
  {
  }

  lemma {:induction false} ListedIdIsByte(ids: bytes, id: int)
    requires Copies(ids, id) > 0
    ensures 0 <= id < 256
  {
    if ids[|ids| - 1] as int != id {
      ListedIdIsByte(ids[..|ids| - 1], id);
    }
  }

  ghost predicate Indexed(s: State) { forall fd :: fd in s.table ==> fd > 0 && s.table[fd] < |s.conns| }

  lemma OneMoreId(ids: bytes, i: nat, id: int)
    requires i < |ids|
    ensures Copies(ids[..i + 1], id) == Copies(ids[..i], id) + if ids[i] as int == id then 1 else 0
    ensures Copies(ids[..i + 1], id) <= Copies(ids, id)
  {
    assert ids[..i + 1][..i] == ids[..i];
    CopiesGrow(ids, i + 1, id);
  }

  lemma {:induction false} CopiesGrow(ids: bytes, i: nat, id: int)
    requires i <= |ids|
    ensures Copies(ids[..i], id) <= Copies(ids, id)
  {
    if i < |ids| {
      CopiesGrow(ids[..|ids| - 1], i, id);
      assert ids[..|ids| - 1][..i] == ids[..i];
    } else {
      assert ids[..i] == ids;
    }
  }

  lemma OneMoreCopy(s: State, before: seq<nat>, k: nat, n: nat, f: bytes)
    requires (forall i :: 0 <= i < |before + Repeat(k, n)| ==> (before + Repeat(k, n))[i] < |s.nodes|) && k < |s.nodes|
    ensures (before + Repeat(k, n)) + [k] == before + Repeat(k, n + 1)
    ensures SentAlong(s, (before + Repeat(k, n)) + [k], f) == SentTo(SentAlong(s, before + Repeat(k, n), f), k, f)
  {
    var sent := before + Repeat(k, n);
    assert (sent + [k])[..|sent|] == sent;
  }

  /** The recipients among the first nodes are the first of the recipients. */
  lemma {:induction false} RecipientsUpTo(nodes: seq<Node>, ids: bytes, k: nat)
    requires k < |nodes|
    ensures Recipients(nodes[..k + 1], ids) == Recipients(nodes[..k], ids) + Repeat(k, Copies(ids, nodes[k].id))
    ensures Recipients(nodes[..k + 1], ids) <= Recipients(nodes, ids)
  {
    assert nodes[..k + 1][..k] == nodes[..k];
    if k + 1 < |nodes| {
      RecipientsUpTo(nodes[..|nodes| - 1], ids, k);
      assert nodes[..|nodes| - 1][..k + 1] == nodes[..k + 1];
    } else {
      assert nodes[..k + 1] == nodes;
    }
  }
}
