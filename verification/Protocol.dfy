/**
 The command head and its broadcast list: how a client builds a broadcast frame, and how the
 broker rewrites it before it passes the payload on.
 */
module Protocol {
  import opened Base
  import opened Framing

  const MAGIC: bytes := [73, 72]
  const SEND_RESERVE: byte := 0
  const SEND_PARALLEL: byte := 1
  const SEND_SERIAL: byte := 2
  const GET_SHM_INFO: byte := 2
  const GET_SHM_NUM: byte := 3
  const CMD_DEFAULT: byte := 188
  const MAX_CMD_LEN := 4096

  /** The room that a list of `n` ids takes, a multiple of four. */
  function Round4(n: nat): (r: nat)
    ensures r % 4 == 0 && n <= r < n + 4
  {
    4 * (n / 4 + if n % 4 != 0 then 1 else 0)
  }

  /** The eight bytes of a head. */
  function HeadOf(bodylen: nat, kind: byte, cmdid: byte, num: byte): (h: bytes)
    requires bodylen < 65536
    ensures |h| == HEAD_LEN && BodyLen(h) == bodylen && h[..2] == MAGIC && h[4] == kind && h[5] == cmdid && h[6] == num && h[7] == 0
  {
    MAGIC + [bodylen % 256, bodylen / 256, kind, cmdid, num, 0]
  }

  function Zeros(n: nat): (z: bytes)
    ensures |z| == n && forall i :: 0 <= i < n ==> z[i] == 0
  {
    seq(n, _ => 0)
  }

  /** What a client puts on the wire: head, ids, padding, payload. */
  function ClientFrame(ids: bytes, data: bytes): (f: bytes)
    requires |ids| < 256 && |data| + Round4(|ids|) < 65536
    ensures IsFrame(f)
  {
    HeadOf(|data| + Round4(|ids|), SEND_PARALLEL, CMD_DEFAULT, |ids|) + (ids + Zeros(Round4(|ids|) - |ids|) + data)
  }

  /** What a subscriber is meant to get. */
  function PayloadFrame(data: bytes, cmdid: byte, pad: byte): (f: bytes)
    requires |data| < 65536
    ensures IsFrame(f)
  {
    HeadOf(|data|, SEND_PARALLEL, cmdid, 0)[7 := pad] + data
  }

  // ---------- writing heads in place ----------

  /** `set_pure_protocol_head`: a negative argument leaves its field alone. */
  method SetPureHead(buf: array<byte>, bodylen: int, kind: int, cmdid: int)
    requires buf.Length >= HEAD_LEN
    modifies buf
    ensures buf[HEAD_LEN..] == old(buf[HEAD_LEN..]) && buf[..2] == MAGIC
    ensures BodyLen(buf[..]) == if bodylen >= 0 then bodylen % 65536 else old(BodyLen(buf[..]))
    ensures buf[4] == if kind >= 0 then kind % 256 else old(buf[4])
    ensures buf[5] == if cmdid >= 0 then cmdid % 256 else old(buf[5])
    ensures if bodylen >= 0 && kind >= 0 && cmdid >= 0 then buf[6] == buf[7] == 0 else buf[6] == old(buf[6]) && buf[7] == old(buf[7])
  {
    if bodylen >= 0 && kind >= 0 && cmdid >= 0 {
      buf[6], buf[7] := 0, 0;
    }
    buf[0], buf[1] := MAGIC[0], MAGIC[1];
    if bodylen >= 0 {
      LowBytes(bodylen);
      buf[2], buf[3] := bodylen % 256, bodylen / 256 % 256;
    }
    if kind >= 0 {
      buf[4] := kind % 256;
    }
    if cmdid >= 0 {
      buf[5] := cmdid % 256;
    }
  }

  lemma LowBytes(n: nat)
    ensures n % 256 + 256 * (n / 256 % 256) == n % 65536
  {
    var q, r := n / 256, n % 256;
    assert n == 256 * q + r && q == 256 * (q / 256) + q % 256;
    assert n == 65536 * (q / 256) + (256 * (q % 256) + r);
    Remainder(n, q / 256, 256 * (q % 256) + r);
  }

  lemma Remainder(n: nat, q: nat, r: nat)
    requires n == 65536 * q + r && r < 65536
    ensures n % 65536 == r
  {
  }

  /** `set_broadcast_cmd_head`. */
  method SetBroadcastHead(buf: array<byte>, bodylen: int, cmdid: int, num: nat)
    requires buf.Length >= HEAD_LEN
    modifies buf
    ensures buf[HEAD_LEN..] == old(buf[HEAD_LEN..]) && buf[..2] == MAGIC
    ensures BodyLen(buf[..]) == if bodylen + Round4(num) >= 0 then (bodylen + Round4(num)) % 65536 else old(BodyLen(buf[..]))
    ensures buf[4] == SEND_PARALLEL && buf[6] == num % 256
    ensures buf[5] == if cmdid >= 0 then cmdid % 256 else old(buf[5])
    ensures buf[7] == if bodylen + Round4(num) >= 0 && cmdid >= 0 then 0 else old(buf[7])
  {
    SetPureHead(buf, bodylen + Round4(num), SEND_PARALLEL, cmdid);
    buf[6] := num % 256;
  }

  /** Copies the first `n` ids to a place in a buffer. */
  method CopyIds(target: array<byte>, at: nat, ids: bytes, n: nat)
    requires n <= |ids| && at + n <= target.Length
    modifies target
    ensures target[..at] == old(target[..at]) && target[at..] == ids[..n] + old(target[at + n..])
  {
    ghost var front, rest := target[..at], target[at + n..];
    for i := 0 to n
      invariant target[..at] == front && target[at..at + i] == ids[..i] && target[at + n..] == rest
    {
      target[at + i] := ids[i];
    }
    assert target[at..] == target[at..at + n] + target[at + n..];
  }

  /** How many ids are copied. */
  function Listed(num: int, ids: Option<bytes>): nat { if ids.Some? && num > 0 then num else 0 }

  /** The ids that are copied, if any. */
  function ListedOf(num: int, ids: Option<bytes>): (r: bytes)
    requires ids.Some? ==> Listed(num, ids) <= |ids.value|
    ensures |r| == Listed(num, ids)
  {
    if ids.Some? && num > 0 then ids.value[..num] else []
  }

  /** `set_pure_broadcast_field`: the count in the head, if there is one, and the ids behind it or in a buffer of their own. */
  method SetBroadcastField(head: array?<byte>, data: array?<byte>, num: int, ids: Option<bytes>)
    requires head != null ==> head.Length >= HEAD_LEN
    requires ids.Some? ==> Listed(num, ids) <= |ids.value|
    requires data != null ==> Listed(num, ids) <= data.Length
    requires data == null && head != null ==> HEAD_LEN + Listed(num, ids) <= head.Length
    modifies if head != null then {head} else {}, if data != null then {data} else {}
    ensures head != null && data == null ==>
      var counted := old(head[..])[6 := if num > 0 then num % 256 else 0];
      head[..] == counted[..HEAD_LEN] + (ListedOf(num, ids) + counted[HEAD_LEN + Listed(num, ids)..])
    ensures head != null && data != null && head != data ==> head[..] == old(head[..])[6 := if num > 0 then num % 256 else 0]
    ensures data != null ==>
      var counted := if head == data then old(data[..])[6 := if num > 0 then num % 256 else 0] else old(data[..]);
      data[..] == ListedOf(num, ids) + counted[Listed(num, ids)..]
  {
    if head != null {
      head[6] := if num > 0 then num % 256 else 0;
    }
    if ids.Some? && num > 0 {
      if data != null {
        CopyIds(data, 0, ids.value, num);
        assert data[0..] == data[..];
      } else if head != null {
        CopyIds(head, HEAD_LEN, ids.value, num);
        assert head[..] == head[..HEAD_LEN] + head[HEAD_LEN..];
      }
    }
  }

  /** The head and the id list of a broadcast, in a zeroed buffer of 64 bytes. */
  method BuildFront(ids: bytes, datalen: nat) returns (front: bytes)
    requires HEAD_LEN + |ids| <= 64 && datalen + Round4(|ids|) < 65536
    ensures front == HeadOf(datalen + Round4(|ids|), SEND_PARALLEL, CMD_DEFAULT, |ids|) + (ids + Zeros(Round4(|ids|) - |ids|))
  {
    var buf := new byte[64](_ => 0);
    assert forall i :: 0 <= i < 56 ==> buf[HEAD_LEN..][i] == 0;
    SetBroadcastHead(buf, datalen, CMD_DEFAULT as int, |ids|);
    ghost var head := buf[..];
    assert head[HEAD_LEN..] == buf[HEAD_LEN..];
    SetBroadcastField(buf, null, |ids|, Some(ids));
    FrontBytes(head, buf[..], ids, datalen);
    front := buf[..HEAD_LEN + Round4(|ids|)];
  }

  lemma FrontBytes(was: bytes, now: bytes, ids: bytes, datalen: nat)
    requires |was| == 64 && HEAD_LEN + |ids| <= 64 && datalen + Round4(|ids|) < 65536
    requires was[..2] == MAGIC && BodyLen(was) == datalen + Round4(|ids|)
    requires was[4] == SEND_PARALLEL && was[5] == CMD_DEFAULT && was[7] == 0
    requires forall i :: 0 <= i < 56 ==> was[HEAD_LEN..][i] == 0
    requires var counted := was[6 := |ids|]; now == counted[..HEAD_LEN] + (ids + counted[HEAD_LEN + |ids|..])
    ensures |now| == 64 && HEAD_LEN + Round4(|ids|) <= 64
    ensures now[..HEAD_LEN + Round4(|ids|)] == HeadOf(datalen + Round4(|ids|), SEND_PARALLEL, CMD_DEFAULT, |ids|) + (ids + Zeros(Round4(|ids|) - |ids|))
  {
    hide HeadOf, Zeros;
    var rest := was[HEAD_LEN + |ids|..];
    assert rest == was[HEAD_LEN..][|ids|..];
    Counted(was, now, ids);
    BehindHead(now, ids, rest);
    HeadBytes(now, ids, datalen);
  }

  lemma Counted(was: bytes, now: bytes, ids: bytes)
    requires |was| == 64 && HEAD_LEN + |ids| <= 64 && |ids| < 256
    requires var counted := was[6 := |ids|]; now == counted[..HEAD_LEN] + (ids + counted[HEAD_LEN + |ids|..])
    ensures |now| == 64 && now[..2] == was[..2] && BodyLen(now) == BodyLen(was)
    ensures now[4] == was[4] && now[5] == was[5] && now[6] == |ids| && now[7] == was[7]
    ensures now[HEAD_LEN..] == ids + was[HEAD_LEN + |ids|..]
  {
    var counted := was[6 := |ids|];
    assert counted[HEAD_LEN + |ids|..] == was[HEAD_LEN + |ids|..];
    assert forall i :: 0 <= i < HEAD_LEN ==> now[i] == counted[i];
  }

  lemma BehindHead(buf: bytes, ids: bytes, rest: bytes)
    requires |buf| == 64 && buf[HEAD_LEN..] == ids + rest && forall i :: 0 <= i < |rest| ==> rest[i] == 0
    ensures buf[HEAD_LEN..HEAD_LEN + |ids|] == ids && forall i :: HEAD_LEN + |ids| <= i < 64 ==> buf[i] == 0
  {
    var tail := buf[HEAD_LEN..];
    assert tail[..|ids|] == ids;
    assert forall i :: HEAD_LEN + |ids| <= i < 64 ==> buf[i] == tail[i - HEAD_LEN] == rest[i - HEAD_LEN - |ids|];
  }

  /**
   `ih_send_broadcast_data`: the head with the ids, then the payload, each on a budget of its
   own. It succeeds exactly when both calls are clean, each by itself, and then the client
   frame is on the wire; `first` and `second` are their answers.
   */
  method SendBroadcast(socket: Socket, ids: bytes, data: bytes) returns (ok: bool, ghost first: seq<Answer>, ghost second: seq<Answer>)
    requires HEAD_LEN + |ids| <= 64 && |data| + Round4(|ids|) < 65536
    modifies socket`wire, socket`log
    ensures socket.log == old(socket.log) + (first + second)
    ensures ok <==> Clean(first, RETRIES) && Clean(second, RETRIES)
    ensures Clean(first, RETRIES) ==> Bytes(first) == HEAD_LEN + Round4(|ids|) && Ended(first)
    ensures Clean(second, RETRIES) ==> Bytes(second) == |data| && (Ended(second) || second == [])
    ensures ok ==> socket.wire == old(socket.wire) + ClientFrame(ids, data)
    ensures Tells(socket.plan, socket.log, |old(socket.log)|)
  {
    hide Clean, Bytes, Ended, SameKind;
    var front := BuildFront(ids, |data|);
    ghost var before, past := socket.wire, socket.log;
    var total, left := socket.SendBlock(front, RETRIES);
    first := socket.log[|past|..];
    ghost var middle := socket.log;
    NotNothing(first, |front|);
    ok := total == |front|;
    assert ok ==> front[..total] == front;
    var total', left' := socket.SendBlock(data, RETRIES);
    second := socket.log[|middle|..];
    assert socket.log == middle + second && middle == past + first;
    assert (past + first) + second == past + (first + second);
    ok := ok && total' == |data|;
    if ok {
      assert data[..total'] == data;
      ClientBytes(before, ids, data);
    }
  }

  lemma NotNothing(call: seq<Answer>, n: nat)
    requires n > 0
    ensures Bytes(call) == n ==> call != []
  {
  }

  lemma HeadBytes(buf: bytes, ids: bytes, datalen: nat)
    requires |buf| == 64 && HEAD_LEN + |ids| <= 64 && datalen + Round4(|ids|) < 65536
    requires buf[..2] == MAGIC && BodyLen(buf) == datalen + Round4(|ids|)
    requires buf[4] == SEND_PARALLEL && buf[5] == CMD_DEFAULT && buf[6] == |ids| && buf[7] == 0
    requires buf[HEAD_LEN..HEAD_LEN + |ids|] == ids && forall i :: HEAD_LEN + |ids| <= i < 64 ==> buf[i] == 0
    ensures HEAD_LEN + Round4(|ids|) <= 64
    ensures buf[..HEAD_LEN + Round4(|ids|)] == HeadOf(datalen + Round4(|ids|), SEND_PARALLEL, CMD_DEFAULT, |ids|) + (ids + Zeros(Round4(|ids|) - |ids|))
  {
    var h := HeadOf(datalen + Round4(|ids|), SEND_PARALLEL, CMD_DEFAULT, |ids|);
    assert buf[0] == buf[..2][0] && buf[1] == buf[..2][1];
    assert buf[..HEAD_LEN] == h;
    var n := HEAD_LEN + Round4(|ids|);
    assert buf[HEAD_LEN + |ids|..n] == Zeros(Round4(|ids|) - |ids|);
    assert buf[..n] == buf[..HEAD_LEN] + (buf[HEAD_LEN..HEAD_LEN + |ids|] + buf[HEAD_LEN + |ids|..n]);
  }

  lemma ClientBytes(before: bytes, ids: bytes, data: bytes)
    requires |ids| < 256 && |data| + Round4(|ids|) < 65536
    ensures var front := HeadOf(|data| + Round4(|ids|), SEND_PARALLEL, CMD_DEFAULT, |ids|) + (ids + Zeros(Round4(|ids|) - |ids|));
            (before + front) + data == before + ClientFrame(ids, data)
  {
    var h, list := HeadOf(|data| + Round4(|ids|), SEND_PARALLEL, CMD_DEFAULT, |ids|), ids + Zeros(Round4(|ids|) - |ids|);
    Assoc(h, list, data);
    Assoc(before, h + list, data);
  }

  // ---------- the broker's rewriting ----------

  /** The ids that the broker reads behind the head of a buffer. */
  function ListedIds(buf: bytes): bytes
    requires |buf| >= HEAD_LEN + 256
  {
    buf[HEAD_LEN..HEAD_LEN + buf[6] as nat]
  }

  /** The frame that leaves the broker for the buffer that came in. */
  function Forwarded(buf: bytes): (f: bytes)
    requires |buf| == MAX_CMD_LEN && HEAD_LEN + BodyLen(buf) <= MAX_CMD_LEN
    ensures IsFrame(f)
  {
    var skip := Round4(buf[6] as nat);
    var bodylen := if BodyLen(buf) >= skip then BodyLen(buf) - skip else BodyLen(buf);
    PayloadFrame(buf[HEAD_LEN + skip..HEAD_LEN + skip + bodylen], buf[5], buf[7])
  }

  /** The head is rewritten where it stands: no ids, and a body that is the payload only. */
  method Rewrite(buf: array<byte>) returns (num: nat, skip: nat)
    requires buf.Length == MAX_CMD_LEN && HEAD_LEN + BodyLen(buf[..]) <= MAX_CMD_LEN
    modifies buf
    ensures num == old(buf[6]) as nat && skip == Round4(num) && buf[HEAD_LEN..] == old(buf[HEAD_LEN..])
    ensures HEAD_LEN + skip + BodyLen(buf[..HEAD_LEN]) <= MAX_CMD_LEN
    ensures buf[..HEAD_LEN] + buf[HEAD_LEN + skip..][..BodyLen(buf[..HEAD_LEN])] == Forwarded(old(buf[..]))
  {
    hide Forwarded, Round4;
    ghost var was := buf[..];
    num := buf[6] as nat;
    skip := Round4(num);
    var bodylen := BodyLen(buf[..]) - skip;
    RoundZero();
    SetBroadcastHead(buf, bodylen, -1, 0);
    ClearIds(buf);
    RewrittenIs(was, buf[..]);
  }

  /** The head without ids; the rest of the buffer stays. */
  method ClearIds(buf: array<byte>)
    requires buf.Length >= HEAD_LEN
    modifies buf
    ensures buf[..] == old(buf[..])[6 := 0]
  {
    ghost var was := buf[..];
    SetBroadcastField(buf, null, 0, None);
    ghost var now := was[6 := 0];
    assert [] + now[HEAD_LEN..] == now[HEAD_LEN..] && now[..HEAD_LEN] + now[HEAD_LEN..] == now;
  }

  lemma RoundZero()
    ensures Round4(0) == 0
  {
  }

  lemma RewrittenIs(was: bytes, now: bytes)
    requires |was| == |now| == MAX_CMD_LEN && HEAD_LEN + BodyLen(was) <= MAX_CMD_LEN && was[HEAD_LEN..] == now[HEAD_LEN..]
    requires now[..2] == MAGIC && now[4] == SEND_PARALLEL && now[5] == was[5] && now[6] == 0 && now[7] == was[7]
    requires var skip := Round4(was[6] as nat);
             BodyLen(now) == if BodyLen(was) >= skip then BodyLen(was) - skip else BodyLen(was)
    ensures var skip := Round4(was[6] as nat);
      && HEAD_LEN + skip + BodyLen(now[..HEAD_LEN]) <= MAX_CMD_LEN
      && now[..HEAD_LEN] + now[HEAD_LEN + skip..][..BodyLen(now[..HEAD_LEN])] == Forwarded(was)
  {
    HeadIs(now, BodyLen(now), was[5], was[7]);
    SameTail(was, now, Round4(was[6] as nat), BodyLen(now));
  }

  lemma HeadIs(buf: bytes, n: nat, cmdid: byte, pad: byte)
    requires |buf| >= HEAD_LEN && buf[..2] == MAGIC && BodyLen(buf) == n < 65536
    requires buf[4] == SEND_PARALLEL && buf[5] == cmdid && buf[6] == 0 && buf[7] == pad
    ensures buf[..HEAD_LEN] == HeadOf(n, SEND_PARALLEL, cmdid, 0)[7 := pad] && BodyLen(buf[..HEAD_LEN]) == n
  {
    assert buf[0] == buf[..2][0] && buf[1] == buf[..2][1];
  }

  lemma SameTail(was: bytes, now: bytes, skip: nat, n: nat)
    requires |was| == |now| == MAX_CMD_LEN && was[HEAD_LEN..] == now[HEAD_LEN..] && HEAD_LEN + skip + n <= MAX_CMD_LEN
    ensures now[HEAD_LEN + skip..][..n] == was[HEAD_LEN + skip..HEAD_LEN + skip + n]
  {
    assert now[HEAD_LEN + skip..] == now[HEAD_LEN..][skip..];
    assert was[HEAD_LEN + skip..] == was[HEAD_LEN..][skip..];
  }

  /** A client frame in the broker's zeroed buffer: the ids are read back, and the payload goes out as it came in. */
  lemma ClientToSubscriber(ids: bytes, data: bytes, buf: bytes)
    requires |ids| <= 56 && HEAD_LEN + Round4(|ids|) + |data| <= MAX_CMD_LEN
    requires |buf| == MAX_CMD_LEN && buf[..|ClientFrame(ids, data)|] == ClientFrame(ids, data)
    ensures BodyLen(buf) == |data| + Round4(|ids|) && HEAD_LEN + BodyLen(buf) <= MAX_CMD_LEN
    ensures ListedIds(buf) == ids
    ensures Forwarded(buf) == PayloadFrame(data, CMD_DEFAULT, 0)
  {
    var f, skip := ClientFrame(ids, data), Round4(|ids|);
    assert forall i :: 0 <= i < HEAD_LEN ==> buf[i] == buf[..|f|][i] == f[i];
    var list := ids + Zeros(skip - |ids|);
    var h := HeadOf(|data| + skip, SEND_PARALLEL, CMD_DEFAULT, |ids|);
    assert f[..HEAD_LEN] == h && f[HEAD_LEN..] == list + data;
    assert f[HEAD_LEN..][..|ids|] == ids && f[HEAD_LEN..][skip..] == data;
    assert buf[HEAD_LEN..HEAD_LEN + |ids|] == buf[..|f|][HEAD_LEN..][..|ids|];
    assert buf[HEAD_LEN + skip..HEAD_LEN + skip + |data|] == buf[..|f|][HEAD_LEN..][skip..];
  }

  lemma ForwardedHead(buf: bytes)
    requires |buf| == MAX_CMD_LEN && HEAD_LEN + BodyLen(buf) <= MAX_CMD_LEN
    ensures Forwarded(buf)[..2] == MAGIC && Forwarded(buf)[4] == SEND_PARALLEL
  {
  }

  // ---------- the bytes on the wire ----------

  /** The magic `IH`, the length in little-endian order, kind, command, count and pad, and then ids, padding and payload. */
  lemma ClientBytesAre(ids: bytes, data: bytes)
    requires |ids| < 256 && |data| + Round4(|ids|) < 65536
    ensures var f, n := ClientFrame(ids, data), |data| + Round4(|ids|);
      && |f| == 8 + n && f[..8] == [73, 72, n % 256, n / 256, 1, 188, |ids|, 0]
      && f[8..8 + |ids|] == ids && f[8 + Round4(|ids|)..] == data
      && forall i :: 8 + |ids| <= i < 8 + Round4(|ids|) ==> f[i] == 0
  {
    var f, n := ClientFrame(ids, data), |data| + Round4(|ids|);
    var h, pad := HeadOf(n, SEND_PARALLEL, CMD_DEFAULT, |ids|), Zeros(Round4(|ids|) - |ids|);
    assert f[..8] == h && f[8..] == (ids + pad) + data;
    assert f[8..8 + |ids|] == f[8..][..|ids|] && f[8 + Round4(|ids|)..] == f[8..][Round4(|ids|)..];
    assert forall i :: 8 + |ids| <= i < 8 + Round4(|ids|) ==> f[i] == f[8..][i - 8] == pad[i - 8 - |ids|];
  }

  /**
   What leaves the broker for what came in: the ids and their padding are taken out, and the
   length with them; when the list claims more than the body holds, the length stays.
   */
  lemma ForwardedBytesAre(buf: bytes)
    requires |buf| == 4096 && 8 + BodyLen(buf) <= 4096
    ensures var f, skip, n := Forwarded(buf), Round4(buf[6]), buf[2] as int + 256 * buf[3] as int;
      && (n >= skip ==> f == [73, 72, (n - skip) % 256, (n - skip) / 256, 1, buf[5], 0, buf[7]] + buf[8 + skip..8 + n])
      && (n < skip ==> f == [73, 72, buf[2], buf[3], 1, buf[5], 0, buf[7]] + buf[8 + skip..8 + skip + n])
    ensures ListedIds(buf) == buf[8..8 + buf[6]]
  {
    var skip, n := Round4(buf[6]), buf[2] as int + 256 * buf[3] as int;
    assert n == BodyLen(buf);
    var m := if n >= skip then n - skip else n;
    var h := HeadOf(m, SEND_PARALLEL, buf[5], 0);
    assert h[7 := buf[7]] == [73, 72, m % 256, m / 256, 1, buf[5], 0, buf[7]];
    assert n % 256 == buf[2] && n / 256 == buf[3];
  }

  // ---------- replies to reserved commands ----------

  /** The shared-memory records, their number, or no reply. */
  function ReplyFrame(shm: Option<bytes>, num: byte, cmdid: byte): (r: Option<bytes>)
    requires shm.Some? ==> |shm.value| < 65536
    ensures r.Some? <==> (cmdid == 2 && shm.Some?) || cmdid == 3
    ensures r.Some? ==> IsFrame(r.value) && r.value[..2] == MAGIC && r.value[4] == SEND_RESERVE && r.value[5] == cmdid
    ensures r.Some? ==> r.value[HEAD_LEN..] == if cmdid == 3 then [num] else shm.value
  {
    if cmdid == GET_SHM_INFO && shm.Some? then Some(HeadOf(|shm.value|, SEND_RESERVE, cmdid, 0) + shm.value)
    else if cmdid == GET_SHM_NUM then Some(HeadOf(1, SEND_RESERVE, cmdid, 0) + [num])
    else None
  }
}
