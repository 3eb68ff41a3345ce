/** What a broadcast does to every connection, all the way from the client that sent it. */
module Delivery {
  import opened Base
  import opened Framing
  import opened Protocol
  import opened Broker
  import opened MainLoop

  function Times(f: bytes, n: nat): seq<bytes> { seq(n, _ => f) }

  // ---------- counting ----------

  lemma {:induction false} CountConcat(a: seq<nat>, b: seq<nat>, k: nat)
    ensures Count(a + b, k) == Count(a, k) + Count(b, k)
  {
    if b == [] {
      assert a + b == a;
    } else {
      assert (a + b)[..|a + b| - 1] == a + b[..|b| - 1];
      CountConcat(a, b[..|b| - 1], k);
    }
  }

  lemma {:induction false} CountNone(a: seq<nat>, k: nat)
    requires forall i :: 0 <= i < |a| ==> a[i] != k
    ensures Count(a, k) == 0
  {
    if a != [] {
      CountNone(a[..|a| - 1], k);
    }
  }

  lemma {:induction false} CountAll(a: seq<nat>, k: nat)
    requires forall i :: 0 <= i < |a| ==> a[i] == k
    ensures Count(a, k) == |a|
  {
    if a != [] {
      CountAll(a[..|a| - 1], k);
    }
  }

  /** Every node is a recipient as often as its id is listed. */
  lemma {:induction false} CountRecipients(nodes: seq<Node>, ids: bytes, k: nat)
    ensures Count(Recipients(nodes, ids), k) == if k < |nodes| then Copies(ids, nodes[k].id) else 0
  {
    if nodes == [] {
      CountNone([], k);
    } else {
      hide Count, Copies;
      var last := |nodes| - 1;
      CountRecipients(nodes[..last], ids, k);
      var again := Repeat(last, Copies(ids, nodes[last].id));
      CountConcat(Recipients(nodes[..last], ids), again, k);
      if k == last { CountAll(again, k); } else { CountNone(again, k); }
    }
  }

  /** In an ascending sequence, what stands before a position is complete below and absent above. */
  lemma CountBefore(ks: seq<nat>, m: nat, k: nat)
    requires m < |ks| && forall i, j :: 0 <= i < j < |ks| ==> ks[i] <= ks[j]
    ensures k < ks[m] ==> Count(ks[..m], k) == Count(ks, k)
    ensures k > ks[m] ==> Count(ks[..m], k) == 0
    ensures k == ks[m] ==> Count(ks[..m], k) < Count(ks, k)
  {
    hide Count;
    assert ks == ks[..m] + ks[m..];
    CountConcat(ks[..m], ks[m..], k);
    if k < ks[m] {
      assert forall i :: m < i < |ks| ==> ks[m] <= ks[i];
      CountNone(ks[m..], k);
    } else if k > ks[m] {
      assert forall i :: 0 <= i < m ==> ks[i] <= ks[m];
      CountNone(ks[..m], k);
    } else {
      assert ks[m..] == [ks[m]] + ks[m + 1..];
      CountConcat([ks[m]], ks[m + 1..], k);
      CountAll([ks[m]], k);
    }
  }

  // ---------- connections ----------

  /** Two nodes never hold the same connection. */
  lemma OneHolder(s: State, j: nat, k: nat, c: nat)
    requires Sane(s) && Holds(s, j, c) && Holds(s, k, c)
    ensures j == k
  {
  }

  /** A connection grows by one frame for each time its holder is named. */
  lemma {:induction false} SentAlongGrows(s: State, ks: seq<nat>, f: bytes, k: nat, c: nat)
    requires Sane(s) && Holds(s, k, c) && forall i :: 0 <= i < |ks| ==> ks[i] < |s.nodes|
    ensures c < |SentAlong(s, ks, f).conns|
    ensures SentAlong(s, ks, f).conns[c].whole == s.conns[c].whole + Times(f, Count(ks, k))
    ensures SentAlong(s, ks, f).conns[c].torn == s.conns[c].torn
    ensures SentAlong(s, ks, f).conns[c].wire == s.conns[c].wire + Join(Times(f, Count(ks, k)))
  {
    if ks == [] {
      assert s.conns[c].whole + Times(f, 0) == s.conns[c].whole;
      assert Join(Times(f, 0)) == [] && s.conns[c].wire + [] == s.conns[c].wire;
    } else {
      var front, last := ks[..|ks| - 1], ks[|ks| - 1];
      SentAlongGrows(s, front, f, k, c);
      var mid := SentAlong(s, front, f);
      if last == k {
        assert Times(f, Count(front, k) + 1) == Times(f, Count(front, k)) + [f];
        Append(s.conns[c].whole, Times(f, Count(front, k)), f);
        JoinSnoc(Times(f, Count(front, k)), f);
        Assoc(s.conns[c].wire, Join(Times(f, Count(front, k))), f);
      } else if Holds(s, last, c) {
        OneHolder(s, last, k, c);
      }
    }
  }

  lemma Append(a: seq<bytes>, b: seq<bytes>, f: bytes)
    ensures (a + b) + [f] == a + (b + [f])
  {
  }

  /** A connection that no recipient holds does not change. */
  lemma {:induction false} SentAlongSpares(s: State, ks: seq<nat>, f: bytes, c: nat)
    requires c < |s.conns| && forall i :: 0 <= i < |ks| ==> ks[i] < |s.nodes| && !Holds(s, ks[i], c)
    ensures SentAlong(s, ks, f).conns[c] == s.conns[c]
  {
    if ks != [] {
      SentAlongSpares(s, ks[..|ks| - 1], f, c);
      assert !Holds(s, ks[|ks| - 1], c);
    }
  }

  // ---------- broadcasts ----------

  /** No node that holds connection `c` is listed. */
  ghost predicate ListsNoHolder(s: State, ids: bytes, c: nat) {
    forall k: nat :: Holds(s, k, c) ==> Copies(ids, s.nodes[k].id) == 0
  }

  /** The stream has grown by `n` copies of a frame, in bytes and in frames. */
  ghost predicate GrownBy(before: Conn, after: Conn, f: bytes, n: nat) {
    && after.wire == before.wire + Join(Times(f, n))
    && after.whole == before.whole + Times(f, n) && after.torn == before.torn
  }

  /**
   When no send fails, every connected node gets the frame once per occurrence of its id,
   and every other connection is left alone.
   */
  lemma BroadcastDelivers(s: State, s': State, ids: bytes, f: bytes, c: nat)
    requires Sane(s) && s' == SentAlong(s, Recipients(s.nodes, ids), f) && c < |s.conns|
    ensures |s'.conns| == |s.conns|
    ensures forall k: nat :: Holds(s, k, c) ==> GrownBy(s.conns[c], s'.conns[c], f, Copies(ids, s.nodes[k].id))
    ensures ListsNoHolder(s, ids, c) ==> s'.conns[c] == s.conns[c]
  {
    var ks := Recipients(s.nodes, ids);
    forall k: nat | Holds(s, k, c) ensures GrownBy(s.conns[c], s'.conns[c], f, Copies(ids, s.nodes[k].id)) {
      SentAlongGrows(s, ks, f, k, c);
      CountRecipients(s.nodes, ids, k);
    }
    if ListsNoHolder(s, ids, c) {
      forall i | 0 <= i < |ks| ensures !Holds(s, ks[i], c) {
        NotNamed(s, ids, c, i);
      }
      SentAlongSpares(s, ks, f, c);
    }
  }

  /** Whoever holds a connection is not among the recipients when none of its holders is listed. */
  lemma NotNamed(s: State, ids: bytes, c: nat, i: nat)
    requires ListsNoHolder(s, ids, c) && i < |Recipients(s.nodes, ids)|
    ensures !Holds(s, Recipients(s.nodes, ids)[i], c)
  {
    var ks := Recipients(s.nodes, ids);
    CountRecipients(s.nodes, ids, ks[i]);
    Named(ks, i);
  }

  lemma {:induction false} Named(ks: seq<nat>, i: nat)
    requires i < |ks|
    ensures Count(ks, ks[i]) > 0
  {
    if i < |ks| - 1 {
      Named(ks[..|ks| - 1], i);
    }
  }

  /**
   When a send fails, the nodes before the failing one in ring order have all their copies,
   those behind it have none, and the failing one has some whole copies and a torn one.
   */
  lemma FailureCutsInRingOrder(s: State, s': State, ids: bytes, f: bytes, m: nat, t: bytes, k: nat, c: nat)
    requires Sane(s) && BreaksAt(s, s', Recipients(s.nodes, ids), f, m, t) && Holds(s, k, c)
    ensures var broken := Recipients(s.nodes, ids)[m]; var n := Copies(ids, s.nodes[k].id);
      && c < |s'.conns|
      && (k < broken ==> GrownBy(s.conns[c], s'.conns[c], f, n))
      && (k > broken ==> s'.conns[c] == s.conns[c])
      && (k == broken ==> !Open(s', c) && exists i :: 0 <= i < n && CutAfter(s.conns[c], s'.conns[c], f, i, t))
  {
    var ks := Recipients(s.nodes, ids);
    var mid, broken := SentAlong(s, ks[..m], f), ks[m];
    SentAlongGrows(s, ks[..m], f, k, c);
    CountBefore(ks, m, k);
    CountRecipients(s.nodes, ids, k);
    if k != broken && Holds(s, broken, c) {
      OneHolder(s, broken, k, c);
    }
    if k > broken {
      forall i | 0 <= i < m ensures !Holds(s, ks[i], c) {
        if Holds(s, ks[i], c) {
          OneHolder(s, ks[i], k, c);
        }
      }
      SentAlongSpares(s, ks[..m], f, c);
    }
    if k == broken {
      ClosedBehind(mid, k, t, c);
      assert CutAfter(s.conns[c], s'.conns[c], f, Count(ks[..m], k), t);
    }
  }

  /** Some copies of a frame, and the front part of one more. */
  ghost predicate CutAfter(before: Conn, after: Conn, f: bytes, i: nat, t: bytes) {
    && after.wire == (before.wire + Join(Times(f, i))) + t
    && after.whole == before.whole + Times(f, i) && after.torn == t
  }

  lemma ClosedBehind(s: State, k: nat, t: bytes, c: nat)
    requires Sane(s) && Holds(s, k, c)
    ensures var s' := FailedAt(s, k, t); !Open(s', c) && c < |s'.conns| && s'.conns[c] == Tear(s.conns[c], t)
  {
    var fd, s' := s.nodes[k].connfd, FailedAt(s, k, t);
    assert s'.table == s.table - {fd};
    assert forall gd :: gd in s'.table ==> s'.table[gd] != c;
  }

  // ---------- connections that a step leaves alone ----------

  /** A step that sends nothing to a holder of `c`. */
  ghost predicate LeavesAlone(s: State, s': State, c: nat) {
    || s' == s
    || (exists path, fd :: s' == Accepted(s, path, fd))
    || (exists k: nat :: k < |s.nodes| && s' == Dropped(s, k))
    || (exists k: nat, f: bytes :: k < |s.nodes| && !Holds(s, k, c) && s' == SentTo(s, k, f))
    || (exists k: nat, t: bytes :: k < |s.nodes| && !Holds(s, k, c) && s' == TornAt(s, k, t))
    || ((exists ids: bytes, f: bytes :: Broadcasts(s, s', ids, f) && ListsNoHolder(s, ids, c)))
  }

  lemma AloneIsUnchanged(s: State, s': State, c: nat)
    requires c < |s.conns| && LeavesAlone(s, s', c)
    ensures c < |s'.conns| && s'.conns[c] == s.conns[c]
  {
    if exists ids: bytes, f: bytes :: Broadcasts(s, s', ids, f) && ListsNoHolder(s, ids, c) {
      var ids: bytes, f: bytes :| Broadcasts(s, s', ids, f) && ListsNoHolder(s, ids, c);
      OtherBroadcast(s, s', ids, f, c);
    }
  }

  lemma OtherBroadcast(s: State, s': State, ids: bytes, f: bytes, c: nat)
    requires c < |s.conns| && Broadcasts(s, s', ids, f) && ListsNoHolder(s, ids, c)
    ensures c < |s'.conns| && s'.conns[c] == s.conns[c]
  {
    hide SentAlong;
    var ks := Recipients(s.nodes, ids);
    forall i | 0 <= i < |ks| ensures ks[i] < |s.nodes| && !Holds(s, ks[i], c) {
      NotNamed(s, ids, c, i);
    }
    if s' == SentAlong(s, ks, f) {
      SentAlongSpares(s, ks, f, c);
    } else {
      var m: nat, t: bytes :| BreaksAt(s, s', ks, f, m, t);
      BreakSpares(s, s', ks, f, m, t, c);
    }
  }

  lemma BreakSpares(s: State, s': State, ks: seq<nat>, f: bytes, m: nat, t: bytes, c: nat)
    requires c < |s.conns| && BreaksAt(s, s', ks, f, m, t) && forall i :: 0 <= i < |ks| ==> !Holds(s, ks[i], c)
    ensures c < |s'.conns| && s'.conns[c] == s.conns[c]
  {
    hide SentAlong;
    var front := ks[..m];
    assert forall i :: 0 <= i < m ==> front[i] == ks[i];
    SentAlongSpares(s, front, f, c);
    var mid := SentAlong(s, front, f);
    assert !Holds(s, ks[m], c) && !Holds(mid, ks[m], c);
    FailedSpares(mid, ks[m], t, c);
  }

  lemma FailedSpares(s: State, k: nat, t: bytes, c: nat)
    requires k < |s.nodes| && c < |s.conns| && !Holds(s, k, c)
    ensures c < |FailedAt(s, k, t).conns| && FailedAt(s, k, t).conns[c] == s.conns[c]
  {
  }

  /** A connection with a failed reply stays framed over all steps that send nothing to its holder. */
  lemma {:induction false} SpoiledStaysFramed(run: seq<State>, i: nat, j: nat, c: nat)
    requires IsAnyRun(run) && i < j < |run| && Inv(run[0]) && c < |run[i].conns|
    requires Unspoiled(run, i, c) && Spoils(run[i], run[i + 1], c)
    requires forall h :: i < h < j ==> LeavesAlone(run[h], run[h + 1], c)
    ensures c < |run[j].conns| && c < |run[i + 1].conns| && run[j].conns[c] == run[i + 1].conns[c] && Framed(run[j].conns[c])
    decreases j
  {
    hide LeavesAlone, Spoils, AnyStep;
    SpoiledIsFramed(run, i, c);
    if j > i + 1 {
      SpoiledStaysFramed(run, i, j - 1, c);
      assert LeavesAlone(run[j - 1], run[j - 1 + 1], c);
      AloneIsUnchanged(run[j - 1], run[j], c);
    }
  }

  // ---------- from the client's call to the subscribers ----------

  /** No listed node is one that never connected. */
  ghost predicate AllListedReached(s: State, ids: bytes) {
    forall k :: 0 <= k < |s.nodes| && Copies(ids, s.nodes[k].id) > 0 ==> Reached(s, k)
  }

  /** One payload frame per occurrence of the holder's id on every connection, and nothing else. */
  ghost predicate EachGetsItsCopies(s: State, s': State, ids: bytes, data: bytes)
    requires |data| < 65536
  {
    && |s'.conns| == |s.conns|
    && (forall c: nat, k: nat :: c < |s.conns| && Holds(s, k, c) ==> GrownBy(s.conns[c], s'.conns[c], PayloadFrame(data, CMD_DEFAULT, 0), Copies(ids, s.nodes[k].id)))
    && (forall c: nat :: c < |s.conns| && ListsNoHolder(s, ids, c) ==> s'.conns[c] == s.conns[c])
  }

  /** A broadcast whose sends are all clean reaches everyone who is listed. */
  lemma CopiesArrive(s: State, s': State, ids: bytes, data: bytes, calls: seq<seq<Answer>>)
    requires Sane(s) && |data| < 65536 && AllListedReached(s, ids) && AllClean(calls)
    requires Carried(s, s', ids, PayloadFrame(data, CMD_DEFAULT, 0), calls)
    ensures EachGetsItsCopies(s, s', ids, data)
  {
    hide PayloadFrame, GrownBy, Carried;
    var f := PayloadFrame(data, CMD_DEFAULT, 0);
    CleanIsComplete(s, s', ids, f, calls);
    forall c: nat | c < |s.conns|
      ensures |s'.conns| == |s.conns|
      ensures forall k: nat :: Holds(s, k, c) ==> GrownBy(s.conns[c], s'.conns[c], f, Copies(ids, s.nodes[k].id))
      ensures ListsNoHolder(s, ids, c) ==> s'.conns[c] == s.conns[c]
    {
      BroadcastDelivers(s, s', ids, f, c);
    }
  }

  lemma CleanIsComplete(s: State, s': State, ids: bytes, f: bytes, calls: seq<seq<Answer>>)
    requires AllListedReached(s, ids) && AllClean(calls) && Carried(s, s', ids, f, calls)
    ensures s' == SentAlong(s, Recipients(s.nodes, ids), f)
  {
    var ks := Recipients(s.nodes, ids);
    forall m: nat, t: bytes ensures !CarriedTo(s, s', ks, f, m, t, calls) {
      if m < |ks| {
        Named(ks, m);
        CountRecipients(s.nodes, ids, ks[m]);
        assert Reached(s, ks[m]);
      }
    }
  }

  /**
   The whole way: the client's call, the broker's receive and dispatch, and the streams of the
   subscribers. When the client's two calls, the broker's receive and each of its sends are
   clean, every connection grows by one payload frame for each time its holder is listed, and
   by nothing else.
   */
  method Publish(server: Server, client: Socket, k: nat, ids: bytes, data: bytes, ghost s: State)
    returns (sent: bool, ghost received: bool, ghost first: seq<Answer>, ghost second: seq<Answer>, ghost answers: seq<Answer>, ghost calls: seq<seq<Answer>>)
    requires s == server.View() && Sane(s) && server.Ready() && k < |server.nodes| && server.nodes[k].connfd > 0
    requires |ids| <= 56 && 8 + Round4(|ids|) + |data| <= 4096
    modifies server, server.rbuf, client`wire, client`log
    ensures client.log == old(client.log) + (first + second) && Tells(client.plan, client.log, |old(client.log)|)
    ensures server.log == old(server.log) + (answers + Concat(calls)) && Tells(server.plan, server.log, |old(server.log)|)
    ensures sent <==> Clean(first, RETRIES) && Clean(second, RETRIES)
    ensures sent ==> client.wire == old(client.wire) + ClientFrame(ids, data)
    ensures !sent ==> answers == [] && calls == [] && server.View() == s
    ensures received <==> sent && Clean(answers, RETRIES)
    ensures sent && !received ==> calls == [] && server.View() == Dropped(s, k)
    ensures sent && received ==> Carried(s, server.View(), ids, PayloadFrame(data, CMD_DEFAULT, 0), calls)
    ensures sent && received && AllClean(calls) && AllListedReached(s, ids) ==> EachGetsItsCopies(s, server.View(), ids, data)
  {
    hide Carried, Clean, EachGetsItsCopies, AllListedReached, AllClean, Tells, Concat, Dispatched;
    received, answers, calls := false, [], [];
    NoCalls(server.plan, server.log);
    ghost var before := client.wire;
    var had := |client.wire|;
    sent, first, second := SendBroadcast(client, ids, data);
    if sent {
      var stream := client.wire[had..];
      assert stream == ClientFrame(ids, data);
      ClientFits(ids, data);
      WholeStream(stream);
      var clean; ghost var got, t;
      clean, got, t, answers, calls := server.Serve(k, stream, s);
      received := got.Some?;
      if received {
        OnlyFrame(stream, got.value);
        ClientToSubscriber(ids, data, Buffered(stream));
        IsCarried(server.shm, server.shmNum, s, k, ids, data, server.View(), calls);
        if AllClean(calls) && AllListedReached(s, ids) {
          CopiesArrive(s, server.View(), ids, data, calls);
        }
      }
    }
  }

  /** After any events, a broadcast finds every listed node that has been connected at some time in its way or gone. */
  lemma ListedOnceConnected(run: seq<State>, j: nat, ids: bytes)
    requires IsAnyRun(run) && j < |run| && Sane(run[0])
    requires AllOnceConnected(run, j, ids)
    ensures AllListedReached(run[j], ids)
  {
    hide HasConnected, AnyStep, Sane, Reached;
    forall k: nat | k < |run[j].nodes| && Copies(ids, run[j].nodes[k].id) > 0 ensures Reached(run[j], k) {
      OnceConnected(run, j, k);
    }
  }

  /**
   The same after any events: when the listed nodes have each been connected at some time,
   whether they still are or not, every one that still is gets its copies.
   */
  method PublishAfter(server: Server, events: seq<Event>, client: Socket, k: nat, ids: bytes, data: bytes)
    returns (sent: bool, ghost run: seq<State>, ghost received: bool, ghost first: seq<Answer>, ghost second: seq<Answer>, ghost past: seq<Answer>, ghost answers: seq<Answer>, ghost calls: seq<seq<Answer>>)
    requires Sane(server.View()) && server.Ready()
    requires |ids| <= 56 && 8 + Round4(|ids|) + |data| <= 4096
    modifies server, server.rbuf, client`wire, client`log
    ensures |run| == |events| + 1 && run[0] == old(server.View()) && IsAnyRun(run)
    ensures client.log == old(client.log) + (first + second) && Tells(client.plan, client.log, |old(client.log)|)
    ensures server.log == past + (answers + Concat(calls)) && Tells(server.plan, server.log, |past|)
    ensures sent <==> k < |run[|events|].nodes| && run[|events|].nodes[k].connfd > 0 && Clean(first, RETRIES) && Clean(second, RETRIES)
    ensures sent ==> client.wire == old(client.wire) + ClientFrame(ids, data)
    ensures received <==> sent && Clean(answers, RETRIES)
    ensures received && AllClean(calls) && AllOnceConnected(run, |events|, ids) ==> EachGetsItsCopies(run[|events|], server.View(), ids, data)
  {
    hide Carried, EachGetsItsCopies, AllListedReached, AllClean, Tells, Concat, Follows, Sane, HasConnected, Reached, Clean;
    ghost var tolds;
    run, tolds := server.Run(events);
    sent, received, first, second, past, answers, calls := false, false, [], [], server.log, [], [];
    NoCalls(server.plan, server.log);
    NoCalls(client.plan, client.log);
    if k < |server.nodes| && server.nodes[k].connfd > 0 {
      sent, received, first, second, answers, calls := Publish(server, client, k, ids, data, server.View());
      if AllOnceConnected(run, |events|, ids) {
        ListedOnceConnected(run, |events|, ids);
      }
    }
  }

  ghost predicate AllOnceConnected(run: seq<State>, j: nat, ids: bytes)
    requires j < |run|
  {
    forall k: nat :: k < |run[j].nodes| && Copies(ids, run[j].nodes[k].id) > 0 ==> HasConnected(run, j, k)
  }

  lemma WholeStream(f: bytes)
    requires IsFrame(f)
    ensures HoldsFrame(f)
  {
    assert f[..|f|] == f;
  }

  lemma IsCarried(shm: Option<bytes>, num: byte, s: State, k: nat, ids: bytes, data: bytes, s': State, calls: seq<seq<Answer>>)
    requires (shm.Some? ==> |shm.value| < 65536) && |ids| <= 56 && HEAD_LEN + Round4(|ids|) + |data| <= MAX_CMD_LEN
    requires Dispatched(shm, num, s, k, ClientFrame(ids, data), s', calls)
    ensures Carried(s, s', ids, PayloadFrame(data, CMD_DEFAULT, 0), calls)
  {
    hide Carried, Replied;
    ClientToSubscriber(ids, data, Buffered(ClientFrame(ids, data)));
  }

  lemma ClientFits(ids: bytes, data: bytes)
    requires |ids| <= 56 && HEAD_LEN + Round4(|ids|) + |data| <= MAX_CMD_LEN
    ensures HEAD_LEN + BodyLen(ClientFrame(ids, data)) == |ClientFrame(ids, data)| <= MAX_CMD_LEN
  {
  }

  /** The only frame in front of a frame's bytes is the frame. */
  lemma OnlyFrame(f: bytes, g: bytes)
    requires IsFrame(f) && IsFrame(g) && g <= f
    ensures g == f
  {
    assert f + [] == f && f[..|g|] == g;
    FrameInFront(f, [], |g|);
  }

  // ---------- the subscriber's end ----------

  /** `ih_recv_data`: the body of the next frame, its length and whether it is the shared-memory reply. */
  method RecvData(socket: Socket, data: array<byte>) returns (ret: int, datalen: nat, ghost answers: seq<Answer>)
    requires socket.taken <= |socket.incoming|
    requires |socket.incoming| - socket.taken >= HEAD_LEN ==> BodyLen(socket.incoming[socket.taken..]) <= data.Length
    modifies socket`taken, socket`log, data
    ensures socket.log == old(socket.log) + answers && (ret >= 0 <==> Clean(answers, RETRIES))
    ensures old(socket.taken) <= socket.taken <= |socket.incoming|
    ensures Tells(socket.plan, socket.log, |old(socket.log)|) || (ret < 0 && socket.taken == |socket.incoming|)
    ensures ret < 0 ==> !exists n :: old(socket.taken) <= n <= socket.taken && IsFrame(socket.incoming[old(socket.taken)..n])
    ensures ret < 0 ==> datalen == 0
    ensures ret >= 0 ==>
      var f := socket.incoming[old(socket.taken)..socket.taken];
      IsFrame(f) && datalen == BodyLen(f) <= data.Length && data[..datalen] == f[HEAD_LEN..] && ret == if f[5] == 2 then 2 else 0
  {
    hide Clean;
    var head := new byte[HEAD_LEN](_ => 0);
    ghost var from := socket.taken;
    datalen := 0;
    var ok := socket.RecvFrame(head, data, 0);
    answers := socket.log[|old(socket.log)|..];
    if !ok {
      return -1, 0, answers;
    }
    ghost var f := socket.incoming[from..socket.taken];
    assert head[..HEAD_LEN] == f[..HEAD_LEN];
    datalen := BodyLen(head[..HEAD_LEN]);
    assert forall i :: 0 <= i < HEAD_LEN ==> head[i] == head[..HEAD_LEN][i] == f[i];
    assert data[..datalen] == data[0..0 + socket.taken - from - HEAD_LEN] == f[HEAD_LEN..];
    ret := if head[5] == GET_SHM_INFO then GET_SHM_INFO as int else 0;
  }

  /**
   After a broadcast that was clean, a listed subscriber who reads on from where its stream
   ended before gets exactly its copies, and all of them if and only if each receive is clean.
   */
  method ReceiveCopies(socket: Socket, buf: array<byte>, ghost s: State, ghost s': State, ids: bytes, ghost data: bytes, ghost k: nat, id: int, ghost c: nat)
    returns (got: seq<bytes>, ghost calls: seq<seq<Answer>>)
    requires |data| < 65536 && EachGetsItsCopies(s, s', ids, data) && c < |s.conns| && Holds(s, k, c) && id == s.nodes[k].id
    requires socket.incoming == s'.conns[c].wire && socket.taken == |s.conns[c].wire| && HEAD_LEN + |data| <= buf.Length
    modifies socket`taken, socket`log, buf
    ensures socket.log == old(socket.log) + Concat(calls) && Tells(socket.plan, socket.log, |old(socket.log)|)
    ensures |got| <= Copies(ids, id) && got == Times(PayloadFrame(data, CMD_DEFAULT, 0), |got|)
    ensures |got| == Copies(ids, id) <==> AllClean(calls)
    ensures |got| == Copies(ids, id) ==> socket.taken == |socket.incoming|
  {
    hide PayloadFrame, AllClean, Join, Concat, Tells;
    ghost var f := PayloadFrame(data, CMD_DEFAULT, 0);
    ghost var frames := Times(f, Copies(ids, id));
    PayloadSize(data);
    assert GrownBy(s.conns[c], s'.conns[c], f, Copies(ids, id));
    assert socket.incoming[socket.taken..] == Join(frames) == Join(frames) + [];
    got, calls := RecvFrames(socket, buf, Copies(ids, id), frames, []);
    DoneWhenClean(calls, frames, |got|);
    assert frames[..|got|] == Times(f, |got|);
  }

  lemma PayloadSize(data: bytes)
    requires |data| < 65536
    ensures |PayloadFrame(data, CMD_DEFAULT, 0)| == HEAD_LEN + |data|
  {
  }
}
