/**
 The broker: subscribers in ring order, the descriptors that are open, and all that has been
 written on every connection there ever was. What the main loop does makes a step relation
 over such states; its invariant holds over every run of steps.
 */
module Broker {
  import opened Base
  import opened Framing
  import opened Protocol

  datatype Node = Node(name: bytes, id: int, connfd: int)

  /** All that was written on one connection: whole frames, and the front part of at most one more. */
  datatype Conn = Conn(wire: bytes, whole: seq<bytes>, torn: bytes)

  /** `table` gives the connection behind each open descriptor. */
  datatype State = State(nodes: seq<Node>, table: map<int, nat>, conns: seq<Conn>)

  const FRESH := Conn([], [], [])

  // ---------- the invariant ----------

  ghost predicate FrontOf(t: bytes, f: bytes) { IsFrame(f) && |t| < |f| && t == f[..|t|] }

  ghost predicate Framed(c: Conn) {
    && c.wire == Join(c.whole) + c.torn && AllFrames(c.whole)
    && exists f :: FrontOf(c.torn, f)
  }

  /** An open descriptor leads to a connection of its own. */
  ghost predicate TableOk(s: State) {
    && (forall fd :: fd in s.table ==> fd > 0 && s.table[fd] < |s.conns|)
    && (forall fd, gd :: fd in s.table && gd in s.table && fd != gd ==> s.table[fd] != s.table[gd])
  }

  /** Positive descriptors held by nodes are open, and no two nodes hold the same. */
  ghost predicate HoldersOk(s: State) {
    && (forall k :: 0 <= k < |s.nodes| && s.nodes[k].connfd > 0 ==> s.nodes[k].connfd in s.table)
    && (forall j, k :: 0 <= j < k < |s.nodes| && s.nodes[j].connfd > 0 ==> s.nodes[j].connfd != s.nodes[k].connfd)
  }

  /** Names and ids as a configuration with distinct subscribers gives them. */
  ghost predicate Configured(nodes: seq<Node>) {
    && (forall j, k :: 0 <= j < k < |nodes| ==> nodes[j].name != nodes[k].name && nodes[j].id != nodes[k].id)
    && (forall k :: 0 <= k < |nodes| ==> nodes[k].id != 0)
  }

  ghost predicate Sane(s: State) { TableOk(s) && HoldersOk(s) && Configured(s.nodes) }

  ghost predicate Open(s: State, c: nat) { exists fd :: fd in s.table && s.table[fd] == c }

  /** The connection is framed, and nothing is torn on it while it is open. */
  ghost predicate Sound(s: State, c: nat)
    requires c < |s.conns|
  {
    Framed(s.conns[c]) && (Open(s, c) ==> s.conns[c].torn == [])
  }

  /** The invariant, for all connections but some. */
  ghost predicate InvBut(s: State, bad: set<nat>) {
    Sane(s) && forall c :: 0 <= c < |s.conns| && c !in bad ==> Sound(s, c)
  }

  ghost predicate Inv(s: State) { InvBut(s, {}) }

  // ---------- the steps ----------

  const NAME_PREFIX_LEN := 9
  const SUFFIX_LEN := 5

  /** The peer's socket path carries this node's name. */
  predicate NameMatches(name: bytes, path: bytes) {
    |path| == NAME_PREFIX_LEN + |name| + SUFFIX_LEN && path[NAME_PREFIX_LEN..NAME_PREFIX_LEN + |name|] == name
  }

  function AdoptOne(n: Node, path: bytes, fd: int): Node {
    if NameMatches(n.name, path) then n.(connfd := fd) else n
  }

  function Adopt(nodes: seq<Node>, path: bytes, fd: int): (r: seq<Node>)
    ensures |r| == |nodes|
    ensures forall k :: 0 <= k < |nodes| ==> r[k] == AdoptOne(nodes[k], path, fd)
  {
    seq(|nodes|, k requires 0 <= k < |nodes| => AdoptOne(nodes[k], path, fd))
  }

  /** A connection is accepted on a descriptor that was not open; whoever bears the name takes it. */
  function Accepted(s: State, path: bytes, fd: int): State {
    State(Adopt(s.nodes, path, fd), s.table[fd := |s.conns|], s.conns + [FRESH])
  }

  /** `close_s` on a node's descriptor. */
  function Dropped(s: State, k: nat): State
    requires k < |s.nodes|
  {
    State(s.nodes[k := s.nodes[k].(connfd := -1)], s.table - {s.nodes[k].connfd}, s.conns)
  }

  function Grow(c: Conn, f: bytes): Conn { Conn(c.wire + f, c.whole + [f], c.torn) }

  function Tear(c: Conn, t: bytes): Conn { Conn(c.wire + t, c.whole, t) }

  predicate Connected(s: State, k: nat)
    requires k < |s.nodes|
  {
    s.nodes[k].connfd in s.table && s.table[s.nodes[k].connfd] < |s.conns|
  }

  /** Node `k` holds a descriptor of connection `c`. */
  ghost predicate Holds(s: State, k: nat, c: nat) {
    k < |s.nodes| && Connected(s, k) && s.table[s.nodes[k].connfd] == c
  }

  /** A whole frame goes out to a node; a node whose connection is closed gets nothing. */
  function SentTo(s: State, k: nat, f: bytes): (s': State)
    requires k < |s.nodes|
    ensures s'.nodes == s.nodes && s'.table == s.table && |s'.conns| == |s.conns|
  {
    if Connected(s, k) then
      var c := s.table[s.nodes[k].connfd];
      s.(conns := s.conns[c := Grow(s.conns[c], f)])
    else s
  }

  function SentAlong(s: State, ks: seq<nat>, f: bytes): (s': State)
    requires forall i :: 0 <= i < |ks| ==> ks[i] < |s.nodes|
    ensures s'.nodes == s.nodes && s'.table == s.table && |s'.conns| == |s.conns|
  {
    if ks == [] then s else SentTo(SentAlong(s, ks[..|ks| - 1], f), ks[|ks| - 1], f)
  }

  /** A send to a node fails after `t`. */
  function TornAt(s: State, k: nat, t: bytes): (s': State)
    requires k < |s.nodes|
    ensures s'.nodes == s.nodes && s'.table == s.table && |s'.conns| == |s.conns|
  {
    if Connected(s, k) then
      var c := s.table[s.nodes[k].connfd];
      s.(conns := s.conns[c := Tear(s.conns[c], t)])
    else s
  }

  /** The same, and the node's descriptor is closed. */
  function FailedAt(s: State, k: nat, t: bytes): State
    requires k < |s.nodes|
  {
    Dropped(TornAt(s, k, t), k)
  }

  // ---------- who gets a broadcast ----------

  function Copies(ids: bytes, id: int): nat {
    if ids == [] then 0 else Copies(ids[..|ids| - 1], id) + if ids[|ids| - 1] as int == id then 1 else 0
  }

  function Repeat(k: nat, n: nat): (r: seq<nat>)
    ensures |r| == n && forall i :: 0 <= i < n ==> r[i] == k
  {
    seq(n, _ => k)
  }

  /** The nodes in ring order, each as often as its id is listed. */
  function Recipients(nodes: seq<Node>, ids: bytes): (r: seq<nat>)
    ensures forall i :: 0 <= i < |r| ==> r[i] < |nodes|
    ensures forall i, j :: 0 <= i < j < |r| ==> r[i] <= r[j]
  {
    if nodes == [] then []
    else Recipients(nodes[..|nodes| - 1], ids) + Repeat(|nodes| - 1, Copies(ids, nodes[|nodes| - 1].id))
  }

  function Count(ks: seq<nat>, k: nat): nat {
    if ks == [] then 0 else Count(ks[..|ks| - 1], k) + if ks[|ks| - 1] == k then 1 else 0
  }

  ghost predicate Broadcasts(s: State, s': State, ids: bytes, f: bytes) {
    var ks := Recipients(s.nodes, ids);
    || (s' == SentAlong(s, ks, f) && forall i :: 0 <= i < |ks| ==> Reached(s, ks[i]))
    || (exists m: nat, t: bytes :: BreaksAt(s, s', ks, f, m, t))
  }

  /** A send succeeds on an open connection, and trivially on a closed one. */
  predicate Reached(s: State, k: nat) {
    k < |s.nodes| && (s.nodes[k].connfd < 0 || Connected(s, k))
  }

  ghost predicate BreaksAt(s: State, s': State, ks: seq<nat>, f: bytes, m: nat, t: bytes) {
    && m < |ks| && (forall i :: 0 <= i < |ks| ==> ks[i] < |s.nodes|) && FrontOf(t, f)
    && (forall i :: 0 <= i < m ==> Reached(s, ks[i]))
    && s' == FailedAt(SentAlong(s, ks[..m], f), ks[m], t)
  }

  ghost predicate Step(s: State, s': State) {
    || s' == s
    || (exists path, fd :: fd > 0 && fd !in s.table && s' == Accepted(s, path, fd))
    || (exists k :: 0 <= k < |s.nodes| && s.nodes[k].connfd > 0 && s' == Dropped(s, k))
    || (exists k, f :: 0 <= k < |s.nodes| && IsFrame(f) && s' == SentTo(s, k, f))
    || (exists ids, f :: IsFrame(f) && Broadcasts(s, s', ids, f))
  }

  // ---------- every step keeps the invariant ----------

  /** Connections are never forgotten, a closed one stays closed, and nothing is written on it. */
  ghost predicate Extends(s: State, s': State) {
    && |s.conns| <= |s'.conns|
    && forall c :: 0 <= c < |s.conns| ==>
         && s.conns[c].whole <= s'.conns[c].whole
         && (!Open(s, c) ==> !Open(s', c) && s'.conns[c] == s.conns[c])
  }

  ghost predicate Good(s: State, s': State, bad: set<nat>) { InvBut(s', bad) && Extends(s, s') }

  lemma {:induction false} GoodTrans(a: State, b: State, c: State, bad: set<nat>, bad': set<nat>)
    requires Good(a, b, bad) && Good(b, c, bad')
    ensures Good(a, c, bad')
  {
  }

  lemma FreshIsFramed()
    ensures Framed(FRESH)
  {
    assert FrontOf([], HeadOf(0, 0, 0, 0));
  }

  lemma AcceptKeeps(s: State, path: bytes, fd: int, bad: set<nat>)
    requires InvBut(s, bad) && fd > 0 && fd !in s.table
    ensures Good(s, Accepted(s, path, fd), bad)
  {
    var s' := Accepted(s, path, fd);
    FreshIsFramed();
    assert forall c :: 0 <= c < |s.conns| ==> s'.conns[c] == s.conns[c];
    AcceptTable(s, path, fd);
    AcceptHolders(s, path, fd);
  }

  lemma AcceptTable(s: State, path: bytes, fd: int)
    requires TableOk(s) && fd > 0 && fd !in s.table
    ensures TableOk(Accepted(s, path, fd))
    ensures forall c :: 0 <= c < |s.conns| && !Open(s, c) ==> !Open(Accepted(s, path, fd), c)
  {
    var s' := Accepted(s, path, fd);
    assert forall gd :: gd in s'.table ==> s'.table[gd] == if gd == fd then |s.conns| else s.table[gd];
  }

  lemma AcceptHolders(s: State, path: bytes, fd: int)
    requires HoldersOk(s) && Configured(s.nodes) && fd > 0 && fd !in s.table
    ensures HoldersOk(Accepted(s, path, fd)) && Configured(Accepted(s, path, fd).nodes)
  {
    var s' := Accepted(s, path, fd);
    OneBearer(s.nodes, path);
    assert forall k :: 0 <= k < |s.nodes| ==> s'.nodes[k].name == s.nodes[k].name && s'.nodes[k].id == s.nodes[k].id;
    assert forall k :: 0 <= k < |s.nodes| ==> s'.nodes[k].connfd == fd || s'.nodes[k] == s.nodes[k];
  }

  /** Distinct names: at most one node matches a path. */
  lemma OneBearer(nodes: seq<Node>, path: bytes)
    requires Configured(nodes)
    ensures forall j, k :: 0 <= j < k < |nodes| && NameMatches(nodes[j].name, path) ==> !NameMatches(nodes[k].name, path)
  {
  }

  lemma DropKeeps(s: State, k: nat, bad: set<nat>)
    requires InvBut(s, bad) && k < |s.nodes|
    ensures Good(s, Dropped(s, k), bad)
  {
  }

  lemma JoinGrow(c: Conn, f: bytes)
    requires Framed(c) && c.torn == [] && IsFrame(f)
    ensures Framed(Grow(c, f))
  {
    JoinSnoc(c.whole, f);
    assert Join(c.whole) + [] == Join(c.whole);
    assert (Join(c.whole) + f) + [] == Join(c.whole) + f;
    var g :| FrontOf(c.torn, g);
    assert FrontOf(Grow(c, f).torn, g);
  }

  lemma TearFramed(c: Conn, f: bytes, t: bytes)
    requires Framed(c) && c.torn == [] && FrontOf(t, f)
    ensures Framed(Tear(c, t))
  {
    assert Join(c.whole) + [] == Join(c.whole);
    assert FrontOf(Tear(c, t).torn, f);
  }

  lemma SendKeeps(s: State, k: nat, f: bytes, bad: set<nat>)
    requires InvBut(s, bad) && k < |s.nodes| && IsFrame(f)
    ensures Good(s, SentTo(s, k, f), bad)
  {
    if Connected(s, k) {
      var fd := s.nodes[k].connfd;
      var c := s.table[fd];
      assert Open(s, c);
      if c !in bad {
        JoinGrow(s.conns[c], f);
      }
      SameTable(s, SentTo(s, k, f), c, bad);
    }
  }

  /** A step that only adds to one open connection. */
  lemma SameTable(s: State, s': State, c: nat, bad: set<nat>)
    requires InvBut(s, bad) && s'.nodes == s.nodes && s'.table == s.table && c < |s.conns| && Open(s, c)
    requires |s'.conns| == |s.conns| && s.conns[c].whole <= s'.conns[c].whole
    requires c !in bad ==> Framed(s'.conns[c]) && s'.conns[c].torn == []
    requires forall b :: 0 <= b < |s.conns| && b != c ==> s'.conns[b] == s.conns[b]
    ensures Good(s, s', bad)
  {
    assert forall b :: Open(s, b) <==> Open(s', b);
  }

  lemma {:induction false} SendAlongKeeps(s: State, ks: seq<nat>, f: bytes, bad: set<nat>)
    requires InvBut(s, bad) && IsFrame(f) && forall i :: 0 <= i < |ks| ==> ks[i] < |s.nodes|
    ensures Good(s, SentAlong(s, ks, f), bad)
  {
    if ks != [] {
      var front := ks[..|ks| - 1];
      SendAlongKeeps(s, front, f, bad);
      SendKeeps(SentAlong(s, front, f), ks[|ks| - 1], f, bad);
      GoodTrans(s, SentAlong(s, front, f), SentAlong(s, ks, f), bad, bad);
    }
  }

  lemma FailKeeps(s: State, k: nat, f: bytes, t: bytes, bad: set<nat>)
    requires InvBut(s, bad) && k < |s.nodes| && FrontOf(t, f)
    ensures Good(s, FailedAt(s, k, t), bad)
  {
    if Connected(s, k) {
      var fd := s.nodes[k].connfd;
      var c := s.table[fd];
      var s' := FailedAt(s, k, t);
      assert Open(s, c);
      if c !in bad {
        TearFramed(s.conns[c], f, t);
      }
      assert !Open(s', c);
      assert s'.table == s.table - {fd};
      assert forall b :: 0 <= b < |s.conns| && b != c ==> s'.conns[b] == s.conns[b];
      assert forall b :: Open(s', b) ==> Open(s, b);
    } else {
      DropKeeps(s, k, bad);
    }
  }

  lemma BroadcastKeeps(s: State, s': State, ids: bytes, f: bytes, bad: set<nat>)
    requires InvBut(s, bad) && IsFrame(f) && Broadcasts(s, s', ids, f)
    ensures Good(s, s', bad)
  {
    var ks := Recipients(s.nodes, ids);
    if s' == SentAlong(s, ks, f) {
      SendAlongKeeps(s, ks, f, bad);
    } else {
      var m: nat, t: bytes :| BreaksAt(s, s', ks, f, m, t);
      var mid := SentAlong(s, ks[..m], f);
      SendAlongKeeps(s, ks[..m], f, bad);
      FailKeeps(mid, ks[m], f, t, bad);
      GoodTrans(s, mid, s', bad, bad);
    }
  }

  lemma StepKeeps(s: State, s': State, bad: set<nat>)
    requires InvBut(s, bad) && Step(s, s')
    ensures Good(s, s', bad)
  {
    if s' == s {
    } else if exists path, fd :: fd > 0 && fd !in s.table && s' == Accepted(s, path, fd) {
      var path, fd :| fd > 0 && fd !in s.table && s' == Accepted(s, path, fd);
      AcceptKeeps(s, path, fd, bad);
    } else if exists k :: 0 <= k < |s.nodes| && s.nodes[k].connfd > 0 && s' == Dropped(s, k) {
      var k :| 0 <= k < |s.nodes| && s.nodes[k].connfd > 0 && s' == Dropped(s, k);
      DropKeeps(s, k, bad);
    } else if exists k, f :: 0 <= k < |s.nodes| && IsFrame(f) && s' == SentTo(s, k, f) {
      var k, f :| 0 <= k < |s.nodes| && IsFrame(f) && s' == SentTo(s, k, f);
      SendKeeps(s, k, f, bad);
    } else {
      var ids, f :| IsFrame(f) && Broadcasts(s, s', ids, f);
      BroadcastKeeps(s, s', ids, f, bad);
    }
  }

  // ---------- whole runs ----------

  ghost predicate IsRun(run: seq<State>) {
    forall i :: 0 <= i < |run| - 1 ==> Step(run[i], run[i + 1])
  }

  /**
   In every run: no two nodes share a positive descriptor, every connection carries whole
   frames and the front part of at most one more, and a connection with a torn frame never
   changes again.
   */
  lemma {:induction false} RunIsSafe(run: seq<State>, i: nat, j: nat)
    requires IsRun(run) && i <= j < |run| && Inv(run[0])
    ensures Inv(run[i]) && Inv(run[j]) && Extends(run[i], run[j])
    ensures forall c :: 0 <= c < |run[i].conns| && run[i].conns[c].torn != [] ==> c < |run[j].conns| && run[j].conns[c] == run[i].conns[c]
    decreases j
  {
    hide Step, InvBut, Extends;
    if j > 0 {
      RunIsSafe(run, 0, j - 1);
      StepKeeps(run[j - 1], run[j], {});
      if i < j {
        RunIsSafe(run, i, j - 1);
        GoodTrans(run[i], run[j - 1], run[j], {}, {});
      }
    }
    NothingChanges(run[i]);
    TornStays(run[i], run[j]);
  }

  lemma NothingChanges(s: State)
    ensures Extends(s, s)
  {
  }

  lemma TornStays(s: State, s': State)
    requires Inv(s) && Extends(s, s')
    ensures forall c :: 0 <= c < |s.conns| && s.conns[c].torn != [] ==> c < |s'.conns| && s'.conns[c] == s.conns[c]
  {
    forall c | 0 <= c < |s.conns| && s.conns[c].torn != [] ensures c < |s'.conns| && s'.conns[c] == s.conns[c] {
      assert Sound(s, c);
    }
  }

  // ---------- runs in which replies fail ----------

  /** A reply to node `k` fails after `t`; the loop does not look at the result and closes nothing. */
  ghost predicate ReplyFails(s: State, s': State, k: nat, r: bytes, t: bytes) {
    k < |s.nodes| && FrontOf(t, r) && s' == TornAt(s, k, t)
  }

  /** A step of the loop, whether replies succeed or not. */
  ghost predicate AnyStep(s: State, s': State) {
    Step(s, s') || exists k: nat, r: bytes, t: bytes :: ReplyFails(s, s', k, r, t)
  }

  /** The step leaves a part of a reply on connection `c`. */
  ghost predicate Spoils(s: State, s': State, c: nat) {
    exists k: nat, r: bytes, t: bytes ::
      ReplyFails(s, s', k, r, t) && t != [] && Connected(s, k) && s.table[s.nodes[k].connfd] == c
  }

  /** What the failed reply spoils. */
  function SpoiledBy(s: State, k: nat, t: bytes): set<nat>
    requires k < |s.nodes|
  {
    if t != [] && Connected(s, k) then {s.table[s.nodes[k].connfd]} else {}
  }

  lemma ReplyFailKeeps(s: State, k: nat, r: bytes, t: bytes, bad: set<nat>)
    requires InvBut(s, bad) && k < |s.nodes| && FrontOf(t, r)
    ensures Good(s, TornAt(s, k, t), bad + SpoiledBy(s, k, t))
  {
    if Connected(s, k) {
      var c, s' := s.table[s.nodes[k].connfd], TornAt(s, k, t);
      assert Open(s, c);
      assert forall b :: Open(s, b) <==> Open(s', b);
      assert forall b :: 0 <= b < |s.conns| && b != c ==> s'.conns[b] == s.conns[b];
      if t == [] && c !in bad {
        assert Sound(s, c);
        TearFramed(s.conns[c], r, t);
      }
      forall b | 0 <= b < |s'.conns| && b !in bad + SpoiledBy(s, k, t) ensures Sound(s', b) {
        assert Sound(s, b);
      }
    }
  }

  function UpTo(n: nat): (r: set<nat>)
    ensures forall c: nat :: c in r <==> c < n
  {
    if n == 0 then {} else UpTo(n - 1) + {n - 1}
  }

  ghost predicate IsAnyRun(run: seq<State>) {
    forall i :: 0 <= i < |run| - 1 ==> AnyStep(run[i], run[i + 1])
  }

  /** No reply has failed on connection `c` in the first `j` steps. */
  ghost predicate Unspoiled(run: seq<State>, j: nat, c: nat)
    requires j < |run|
  {
    forall i :: 0 <= i < j ==> !Spoils(run[i], run[i + 1], c)
  }

  lemma {:induction false} AnyRunInvariant(run: seq<State>, j: nat) returns (bad: set<nat>)
    requires IsAnyRun(run) && j < |run| && Inv(run[0])
    ensures InvBut(run[j], bad) && forall c :: c in bad ==> !Unspoiled(run, j, c)
  {
    hide Step, InvBut, Extends;
    bad := {};
    if j > 0 {
      var before := AnyRunInvariant(run, j - 1);
      var s, s' := run[j - 1], run[j];
      assert AnyStep(s, s');
      bad := before;
      if Step(s, s') {
        StepKeeps(s, s', before);
      } else {
        var k: nat, r: bytes, t: bytes :| ReplyFails(s, s', k, r, t);
        ReplyFailKeeps(s, k, r, t, before);
        bad := before + SpoiledBy(s, k, t);
        assert forall c :: c in SpoiledBy(s, k, t) ==> Spoils(s, s', c);
      }
      forall c | c in bad ensures !Unspoiled(run, j, c) {
        if c in before {
          assert !Unspoiled(run, j - 1, c);
        } else {
          assert Spoils(run[j - 1], run[j - 1 + 1], c);
        }
      }
    }
  }

  lemma AnyStepExtends(s: State, s': State)
    requires Sane(s) && AnyStep(s, s')
    ensures Sane(s') && Extends(s, s')
  {
    hide Step;
    var bad := UpTo(|s.conns|);
    if Step(s, s') {
      StepKeeps(s, s', bad);
    } else {
      var k: nat, r: bytes, t: bytes :| ReplyFails(s, s', k, r, t);
      ReplyFailKeeps(s, k, r, t, bad);
    }
  }

  lemma ExtendsTrans(a: State, b: State, c: State)
    requires Extends(a, b) && Extends(b, c)
    ensures Extends(a, c)
  {
  }

  lemma {:induction false} AnyRunExtends(run: seq<State>, i: nat, j: nat)
    requires IsAnyRun(run) && i <= j < |run| && Sane(run[0])
    ensures Sane(run[i]) && Sane(run[j]) && Extends(run[i], run[j])
    decreases j
  {
    hide AnyStep, Sane, Extends;
    NothingChanges(run[i]);
    if j > 0 {
      AnyRunExtends(run, 0, j - 1);
      assert AnyStep(run[j - 1], run[j - 1 + 1]);
      AnyStepExtends(run[j - 1], run[j]);
      if i < j {
        AnyRunExtends(run, i, j - 1);
        ExtendsTrans(run[i], run[j - 1], run[j]);
      }
    }
  }

  // ---------- names and ids ----------

  /** The socket path of a subscriber: `/run/shm/`, its name, `-sock`. */
  function SocketPath(name: bytes): bytes {
    [47, 114, 117, 110, 47, 115, 104, 109, 47] + name + [45, 115, 111, 99, 107]
  }

  lemma PathMatches(name: bytes, other: bytes)
    ensures NameMatches(other, SocketPath(name)) <==> other == name
  {
    var path := SocketPath(name);
    assert path[9..9 + |name|] == name;
  }

  /** A subscriber that connects from its own path takes the descriptor, and nobody else does. */
  lemma BearerTakesIt(s: State, name: bytes, fd: int)
    requires Configured(s.nodes)
    ensures forall k :: 0 <= k < |s.nodes| && s.nodes[k].name == name ==>
      Accepted(s, SocketPath(name), fd).nodes == s.nodes[k := s.nodes[k].(connfd := fd)]
    ensures (forall k :: 0 <= k < |s.nodes| ==> s.nodes[k].name != name) ==> Accepted(s, SocketPath(name), fd).nodes == s.nodes
  {
    hide NameMatches, SocketPath;
    forall k | 0 <= k < |s.nodes| ensures NameMatches(s.nodes[k].name, SocketPath(name)) <==> s.nodes[k].name == name {
      PathMatches(name, s.nodes[k].name);
    }
  }

  /** The copies for an id are its occurrences in the list. */
  lemma {:induction false} CopiesAreOccurrences(ids: bytes, id: int)
    ensures Copies(ids, id) == if 0 <= id < 256 then multiset(ids)[id] else 0
  {
    if ids != [] {
      CopiesAreOccurrences(ids[..|ids| - 1], id);
      assert ids == ids[..|ids| - 1] + [ids[|ids| - 1]];
    }
  }

  // ---------- nodes over time ----------

  /** The nodes keep their names and ids, and none goes back to the state of one that never connected. */
  ghost predicate KeepsNodes(s: State, s': State) {
    && |s'.nodes| == |s.nodes|
    && forall k :: 0 <= k < |s.nodes| ==>
         && s'.nodes[k].name == s.nodes[k].name && s'.nodes[k].id == s.nodes[k].id
         && (s.nodes[k].connfd != 0 ==> s'.nodes[k].connfd != 0)
  }

  lemma AnyStepKeepsNodes(s: State, s': State)
    requires AnyStep(s, s')
    ensures KeepsNodes(s, s')
  {
    hide Recipients, SentAlong, FrontOf;
  }

  lemma {:induction false} AnyRunKeepsNodes(run: seq<State>, i: nat, j: nat)
    requires IsAnyRun(run) && i <= j < |run|
    ensures KeepsNodes(run[i], run[j])
    decreases j
  {
    hide AnyStep;
    if i < j {
      AnyRunKeepsNodes(run, i, j - 1);
      assert AnyStep(run[j - 1], run[j - 1 + 1]);
      AnyStepKeepsNodes(run[j - 1], run[j]);
    }
  }

  /** Node `k` has been connected at some time up to `j`. */
  ghost predicate HasConnected(run: seq<State>, j: nat, k: nat)
    requires j < |run|
  {
    exists i :: 0 <= i <= j && k < |run[i].nodes| && run[i].nodes[k].connfd > 0
  }

  /**
   A node that has been connected is reached ever after: its sends go out, or have nothing to
   do once its connection is closed; only one that never connected can stop a broadcast
   without an answer of the kernel.
   */
  lemma OnceConnected(run: seq<State>, j: nat, k: nat)
    requires IsAnyRun(run) && j < |run| && Sane(run[0]) && HasConnected(run, j, k)
    ensures k < |run[j].nodes| && run[j].nodes[k].connfd != 0 && Reached(run[j], k)
  {
    hide AnyStep;
    var i :| 0 <= i <= j && k < |run[i].nodes| && run[i].nodes[k].connfd > 0;
    AnyRunKeepsNodes(run, i, j);
    AnyRunExtends(run, 0, j);
  }

  /** A send to a node that never connected fails and writes nowhere. */
  lemma NeverConnectedFails(s: State, k: nat, t: bytes)
    requires k < |s.nodes| && s.nodes[k].connfd == 0 && TableOk(s)
    ensures !Reached(s, k) && TornAt(s, k, t) == s
  {
  }

  /** After a close, a send to the node has nothing to do. */
  lemma DroppedIsReached(s: State, k: nat, f: bytes)
    requires k < |s.nodes| && TableOk(s)
    ensures Reached(Dropped(s, k), k) && SentTo(Dropped(s, k), k, f) == Dropped(s, k)
  {
  }

  /**
   In every run, whatever replies fail, and for any two times: no two nodes share a positive
   descriptor; a connection that is closed stays closed and unchanged; every connection on
   which no reply has failed so far is framed, with nothing torn while it is open; and once
   a frame is torn on such a connection, it never changes again.
   */
  lemma AnyRunIsSafe(run: seq<State>, i: nat, j: nat)
    requires IsAnyRun(run) && i <= j < |run| && Inv(run[0])
    ensures Sane(run[i]) && Sane(run[j]) && Extends(run[i], run[j])
    ensures forall c :: 0 <= c < |run[j].conns| && Unspoiled(run, j, c) ==> Sound(run[j], c)
    ensures forall c :: 0 <= c < |run[i].conns| && Unspoiled(run, i, c) && run[i].conns[c].torn != [] ==>
      c < |run[j].conns| && run[j].conns[c] == run[i].conns[c]
  {
    AnyRunExtends(run, i, j);
    forall c | 0 <= c < |run[j].conns| && Unspoiled(run, j, c) ensures Sound(run[j], c) {
      UnspoiledIsSound(run, j, c);
    }
    forall c | 0 <= c < |run[i].conns| && Unspoiled(run, i, c) && run[i].conns[c].torn != []
      ensures c < |run[j].conns| && run[j].conns[c] == run[i].conns[c]
    {
      UnspoiledIsSound(run, i, c);
    }
  }

  lemma UnspoiledIsSound(run: seq<State>, j: nat, c: nat)
    requires IsAnyRun(run) && j < |run| && Inv(run[0]) && c < |run[j].conns| && Unspoiled(run, j, c)
    ensures Sane(run[j]) && Sound(run[j], c)
  {
    var bad := AnyRunInvariant(run, j);
    assert c !in bad;
  }

  /** The first failed reply leaves its connection framed, with the front part of the reply behind the frames. */
  lemma SpoiledIsFramed(run: seq<State>, i: nat, c: nat)
    requires IsAnyRun(run) && i + 1 < |run| && Inv(run[0]) && c < |run[i].conns|
    requires Unspoiled(run, i, c) && Spoils(run[i], run[i + 1], c)
    ensures c < |run[i + 1].conns| && Framed(run[i + 1].conns[c]) && run[i + 1].conns[c].torn != []
  {
    UnspoiledIsSound(run, i, c);
    var s := run[i];
    var k: nat, r: bytes, t: bytes :| ReplyFails(s, run[i + 1], k, r, t) && t != [] && Connected(s, k) && s.table[s.nodes[k].connfd] == c;
    assert Open(s, c);
    TearFramed(s.conns[c], r, t);
    assert run[i + 1].conns[c] == Tear(s.conns[c], t);
  }

  /** A frame written behind a torn one: the connection is framed exactly when the two commute. */
  lemma FrameBehindTorn(c: Conn, f: bytes)
    requires Framed(c) && IsFrame(f)
    ensures Framed(Grow(c, f)) <==> c.torn + f == f + c.torn
  {
    var g :| FrontOf(c.torn, g);
    assert FrontOf(Grow(c, f).torn, g);
    JoinSnoc(c.whole, f);
    Behind(Join(c.whole), c.torn, f);
  }

  lemma Behind(a: bytes, t: bytes, f: bytes)
    ensures (a + t) + f == (a + f) + t <==> t + f == f + t
  {
    Assoc(a, t, f);
    Assoc(a, f, t);
    assert (a + (t + f))[|a|..] == t + f && (a + (f + t))[|a|..] == f + t;
  }

  /** No broadcast frame commutes with the front of a reply: their kinds differ. */
  lemma ReplyAndBroadcastDiffer(r: bytes, t: bytes, f: bytes)
    requires FrontOf(t, r) && t != [] && IsFrame(f)
    requires r[..2] == MAGIC && r[4] == SEND_RESERVE && f[..2] == MAGIC && f[4] == SEND_PARALLEL
    ensures t + f != f + t
  {
    var a, b := t + f, f + t;
    assert r[0] == r[..2][0] && r[1] == r[..2][1] && f[0] == f[..2][0] && f[1] == f[..2][1];
    assert b[4] == f[4];
    if |t| > 4 {
      assert a[4] == t[4] == r[4];
    } else {
      assert t[0] == r[0];
      assert a[|t|] == f[0] && b[|t|] == f[|t|];
      if |t| == 4 {
        assert a[4] == f[0];
      } else if |t| == 3 {
        assert a[4] == f[1];
      } else if |t| == 2 {
        assert a[4] == f[2] && a[2] == f[0] && b[2] == f[2];
      } else {
        assert a[1] == f[0] && b[1] == f[1];
      }
    }
  }

  /**
   So a broadcast that reaches a connection behind the front of a failed reply always breaks
   its framing, whatever the reply, the place where it failed and the payload.
   */
  lemma FailedReplyBreaksFraming(s: State, k: nat, shm: Option<bytes>, num: byte, cmdid: byte, t: bytes, buf: bytes)
    requires Inv(s) && k < |s.nodes| && Connected(s, k) && (shm.Some? ==> |shm.value| < 65536)
    requires ReplyFrame(shm, num, cmdid).Some? && FrontOf(t, ReplyFrame(shm, num, cmdid).value) && t != []
    requires |buf| == MAX_CMD_LEN && HEAD_LEN + BodyLen(buf) <= MAX_CMD_LEN
    ensures var c := s.table[s.nodes[k].connfd]; !Framed(SentTo(TornAt(s, k, t), k, Forwarded(buf)).conns[c])
  {
    var c, r, f := s.table[s.nodes[k].connfd], ReplyFrame(shm, num, cmdid).value, Forwarded(buf);
    assert Open(s, c) && Sound(s, c);
    TearFramed(s.conns[c], r, t);
    FrameBehindTorn(Tear(s.conns[c], t), f);
    ForwardedHead(buf);
    ReplyAndBroadcastDiffer(r, t, f);
  }
}
