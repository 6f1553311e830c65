/** paramiko/packet.py: how long a key may be used. The rekey counters, the sequence numbers
    that go into the MAC, and the AEAD counters. */
module KeyLifetime {
  import opened Bytes
  import opened Packets
  import opened Options

  const REKEY_PACKETS: nat := 0x2000_0000
  const REKEY_BYTES: nat := 0x2000_0000
  const REKEY_PACKETS_OVERFLOW_MAX: nat := 0x2000_0000
  const REKEY_BYTES_OVERFLOW_MAX: nat := 0x2000_0000

  datatype Counters = Counters(
    sentBytes: nat,
    sentPackets: nat,
    receivedBytes: nat,
    receivedPackets: nat,
    bytesOverflow: nat,
    packetsOverflow: nat,
    needRekey: bool,
    initCount: nat)

  const NEW_COUNTERS := Counters(0, 0, 0, 0, 0, 0, false, 0)

  /** The end of send_message: ask for new keys once. */
  function Sent(c: Counters, n: nat): Counters {
    var d := c.(sentBytes := c.sentBytes + n, sentPackets := c.sentPackets + 1);
    if (d.sentPackets >= REKEY_PACKETS || d.sentBytes >= REKEY_BYTES) && !d.needRekey then
      d.(bytesOverflow := 0, packetsOverflow := 0, needRekey := true)
    else d
  }

  /** The end of read_message: None when the peer has ignored the request for too long. */
  function Received(c: Counters, n: nat): Option<Counters> {
    var d := c.(receivedBytes := c.receivedBytes + n, receivedPackets := c.receivedPackets + 1);
    if d.needRekey then
      var e := d.(bytesOverflow := d.bytesOverflow + n, packetsOverflow := d.packetsOverflow + 1);
      if e.packetsOverflow >= REKEY_PACKETS_OVERFLOW_MAX || e.bytesOverflow >= REKEY_BYTES_OVERFLOW_MAX
      then None else Some(e)
    else if d.receivedPackets >= REKEY_PACKETS || d.receivedBytes >= REKEY_BYTES then
      Some(d.(bytesOverflow := 0, packetsOverflow := 0, needRekey := true))
    else Some(d)
  }

  /** One more packet of n bytes has been received: with a request pending it counts towards the overflow, and
      otherwise it makes the request if it reaches a limit. */
  ghost predicate ReceivedOne(was: Counters, n: nat, now: Counters) {
    && now.receivedBytes == was.receivedBytes + n && now.receivedPackets == was.receivedPackets + 1
    && (now.needRekey
        <==> was.needRekey || now.receivedPackets >= 0x2000_0000 || now.receivedBytes >= 0x2000_0000)
    && (was.needRekey ==>
        && now.bytesOverflow == was.bytesOverflow + n < 0x2000_0000
        && now.packetsOverflow == was.packetsOverflow + 1 < 0x2000_0000)
    && (now.needRekey && !was.needRekey ==> now.bytesOverflow == now.packetsOverflow == 0)
    && (!now.needRekey ==> now.bytesOverflow == was.bytesOverflow && now.packetsOverflow == was.packetsOverflow)
    && now.sentBytes == was.sentBytes && now.sentPackets == was.sentPackets && now.initCount == was.initCount
  }

  /** The peer has ignored the request for too long. */
  ghost predicate OverLimit(was: Counters, n: nat) {
    was.needRekey && (was.packetsOverflow + 1 >= 0x2000_0000 || was.bytesOverflow + n >= 0x2000_0000)
  }

  lemma ReceivedMeans(c: Counters, n: nat)
    ensures Received(c, n).None? <==> OverLimit(c, n)
    ensures Received(c, n).Some? ==> ReceivedOne(c, n, Received(c, n).value)
  {
  }

  /** init_count |= 1 or 2; the request is cleared when both directions have been reset. */
  function Reset(c: Counters, bit: nat): Counters {
    var i := if c.initCount == 0 || c.initCount == bit then bit else 3;
    if i == 3 then c.(initCount := 0, needRekey := false) else c.(initCount := i)
  }

  function SwitchOut(c: Counters): Counters {
    Reset(c.(sentBytes := 0, sentPackets := 0), 1)
  }

  function SwitchIn(c: Counters): Counters {
    Reset(c.(receivedBytes := 0, receivedPackets := 0, bytesOverflow := 0, packetsOverflow := 0), 2)
  }

  // ---------- runs ----------

  /** The inbound side: the counters, the next sequence number, and the sequence numbers
      of the packets accepted under the current key. */
  datatype Inbound = Inbound(c: Counters, seqno: nat, used: seq<nat>)

  datatype Op = OpSent(n: nat) | OpReceived(n: nat) | OpSwitchOut | OpSwitchIn(reset: bool)

  /** The order in which Transport switches: outbound after the last key exchange message, inbound
      on NEWKEYS. A switch out of that order is not a step. */
  function Next(s: Inbound, op: Op): Option<Inbound> {
    match op
    case OpSent(n) => Some(s.(c := Sent(s.c, n)))
    case OpReceived(n) =>
      var c := Received(s.c, n);
      if c.None? then None
      else Some(Inbound(c.value, (s.seqno + 1) % SEQ_LIMIT, s.used + [s.seqno]))
    case OpSwitchOut => if s.c.initCount == 0 then Some(s.(c := SwitchOut(s.c))) else None
    case OpSwitchIn(reset) =>
      if s.c.initCount == 1 then
        Some(Inbound(SwitchIn(s.c), if reset then 0 else s.seqno, []))
      else None
  }

  ghost predicate Runs(s: Inbound, ops: seq<Op>, t: Inbound)
    decreases |ops|
  {
    if ops == [] then s == t
    else Next(s, ops[0]).Some? && Runs(Next(s, ops[0]).value, ops[1..], t)
  }

  predicate Consecutive(used: seq<nat>, base: nat) {
    forall i :: 0 <= i < |used| ==> used[i] == (base + i) % SEQ_LIMIT
  }

  ghost predicate Inv(s: Inbound) {
    && s.c.initCount <= 1
    && |s.used| == s.c.receivedPackets
    && (!s.c.needRekey ==> s.c.receivedPackets < REKEY_PACKETS)
    && (s.c.needRekey ==>
        s.c.packetsOverflow < REKEY_PACKETS_OVERFLOW_MAX
        && s.c.receivedPackets <= REKEY_PACKETS + s.c.packetsOverflow)
    && exists base: nat :: Consecutive(s.used, base) && s.seqno == (base + |s.used|) % SEQ_LIMIT
  }

  lemma AppendConsecutive(used: seq<nat>, base: nat)
    requires Consecutive(used, base)
    ensures Consecutive(used + [(base + |used|) % SEQ_LIMIT], base)
    ensures ((base + |used|) % SEQ_LIMIT + 1) % SEQ_LIMIT == (base + |used| + 1) % SEQ_LIMIT
  {
  }

  lemma NextKeepsInv(s: Inbound, op: Op)
    requires Inv(s) && Next(s, op).Some?
    ensures Inv(Next(s, op).value)
  {
    var base: nat :| Consecutive(s.used, base) && s.seqno == (base + |s.used|) % SEQ_LIMIT;
    var t := Next(s, op).value;
    match op
    case OpReceived(n) =>
      AppendConsecutive(s.used, base);
      assert Consecutive(t.used, base) && t.seqno == (base + |t.used|) % SEQ_LIMIT;
    case OpSwitchIn(reset) =>
      assert Consecutive([], t.seqno) && t.seqno == (t.seqno + 0) % SEQ_LIMIT;
    case _ =>
      assert Consecutive(t.used, base);
  }

  lemma {:induction false} RunKeepsInv(s: Inbound, ops: seq<Op>, t: Inbound)
    requires Inv(s) && Runs(s, ops, t)
    ensures Inv(t)
    decreases |ops|
  {
    if ops != [] {
      NextKeepsInv(s, ops[0]);
      RunKeepsInv(Next(s, ops[0]).value, ops[1..], t);
    }
  }

  lemma ConsecutiveDistinct(used: seq<nat>, base: nat, i: nat, j: nat)
    requires Consecutive(used, base) && i < j < |used| <= SEQ_LIMIT
    ensures used[i] != used[j]
  {
  }

  /** Over any run from a fresh connection, whatever is sent and received and however often the keys
      change: fewer than 2^30 packets are accepted under one inbound key, and so no two
      of them carry the same sequence number into the MAC. */
  lemma InboundKeyLifetime(seqno: nat, ops: seq<Op>, t: Inbound)
    requires seqno < SEQ_LIMIT && Runs(Inbound(NEW_COUNTERS, seqno, []), ops, t)
    ensures |t.used| < REKEY_PACKETS + REKEY_PACKETS_OVERFLOW_MAX == 0x4000_0000
    ensures forall i, j :: 0 <= i < j < |t.used| ==> t.used[i] != t.used[j]
  {
    assert Consecutive([], seqno);
    RunKeepsInv(Inbound(NEW_COUNTERS, seqno, []), ops, t);
    var base: nat :| Consecutive(t.used, base) && t.seqno == (base + |t.used|) % SEQ_LIMIT;
    forall i, j | 0 <= i < j < |t.used| ensures t.used[i] != t.used[j] {
      ConsecutiveDistinct(t.used, base, i, j);
    }
  }

  // ---------- switches in any order ----------

  /** The Packetizer alone takes switches in any order. A packet counts at least the four bytes of its
      length field. */
  function NextAnyOrder(s: Inbound, op: Op): Option<Inbound> {
    match op
    case OpSent(n) => Some(s.(c := Sent(s.c, n)))
    case OpReceived(n) =>
      var c := Received(s.c, n);
      if c.None? || n < 4 then None
      else Some(Inbound(c.value, (s.seqno + 1) % SEQ_LIMIT, s.used + [s.seqno]))
    case OpSwitchOut => Some(s.(c := SwitchOut(s.c)))
    case OpSwitchIn(reset) => Some(Inbound(SwitchIn(s.c), if reset then 0 else s.seqno, []))
  }

  ghost predicate RunsAnyOrder(s: Inbound, ops: seq<Op>, t: Inbound)
    decreases |ops|
  {
    if ops == [] then s == t
    else NextAnyOrder(s, ops[0]).Some? && RunsAnyOrder(NextAnyOrder(s, ops[0]).value, ops[1..], t)
  }

  const QUARTER: nat := 0x800_0000   // 2^27, a quarter of either byte limit

  /** A late outbound switch, with initCount 2, can clear a request once, and not again before the next
      inbound key: so the bytes, and with them the packets, stay bounded all the same. */
  predicate CountsAnyOrder(c: Counters) {
    && c.initCount <= 2
    && 4 * c.receivedPackets <= c.receivedBytes
    && 4 * c.packetsOverflow <= c.bytesOverflow
    && (!c.needRekey ==> c.receivedBytes < REKEY_BYTES || (c.initCount != 2 && c.receivedPackets < 2 * QUARTER))
    && (c.needRekey ==>
        c.bytesOverflow < REKEY_BYTES_OVERFLOW_MAX
        && (c.receivedPackets <= QUARTER + c.packetsOverflow
            || (c.initCount != 2 && c.receivedPackets <= 2 * QUARTER + c.packetsOverflow)))
  }

  ghost predicate InvAnyOrder(s: Inbound) {
    && CountsAnyOrder(s.c) && |s.used| == s.c.receivedPackets
    && exists base: nat :: Consecutive(s.used, base) && s.seqno == (base + |s.used|) % SEQ_LIMIT
  }

  lemma CountsKept(s: Inbound, op: Op)
    requires CountsAnyOrder(s.c) && NextAnyOrder(s, op).Some?
    ensures CountsAnyOrder(NextAnyOrder(s, op).value.c)
    ensures NextAnyOrder(s, op).value.c.receivedPackets
         == if op.OpReceived? then s.c.receivedPackets + 1 else if op.OpSwitchIn? then 0 else s.c.receivedPackets
  {
  }

  lemma NextKeepsInvAnyOrder(s: Inbound, op: Op)
    requires InvAnyOrder(s) && NextAnyOrder(s, op).Some?
    ensures InvAnyOrder(NextAnyOrder(s, op).value)
  {
    CountsKept(s, op);
    var base: nat :| Consecutive(s.used, base) && s.seqno == (base + |s.used|) % SEQ_LIMIT;
    var t := NextAnyOrder(s, op).value;
    hide CountsAnyOrder, Sent, Received, SwitchOut, SwitchIn;
    match op
    case OpReceived(n) =>
      AppendConsecutive(s.used, base);
      assert Consecutive(t.used, base) && t.seqno == (base + |t.used|) % SEQ_LIMIT;
    case OpSwitchIn(reset) =>
      var from: nat := if reset then 0 else (base + |s.used|) % SEQ_LIMIT;
      assert Consecutive([], from) && t.seqno == (from + 0) % SEQ_LIMIT;
    case _ =>
      assert Consecutive(t.used, base);
  }

  lemma {:induction false} RunKeepsInvAnyOrder(s: Inbound, ops: seq<Op>, t: Inbound)
    requires InvAnyOrder(s) && RunsAnyOrder(s, ops, t)
    ensures InvAnyOrder(t)
    decreases |ops|
  {
    if ops != [] {
      NextKeepsInvAnyOrder(s, ops[0]);
      RunKeepsInvAnyOrder(NextAnyOrder(s, ops[0]).value, ops[1..], t);
    }
  }

  /** In whatever order the ciphers are switched, fewer than 2^29 packets are accepted under one inbound
      key, since each of them counts towards the byte limits too; so no sequence number
      repeats under it. */
  lemma InboundKeyLifetimeAnyOrder(seqno: nat, ops: seq<Op>, t: Inbound)
    requires seqno < SEQ_LIMIT && RunsAnyOrder(Inbound(NEW_COUNTERS, seqno, []), ops, t)
    ensures |t.used| < 0x2000_0000
    ensures forall i, j :: 0 <= i < j < |t.used| ==> t.used[i] != t.used[j]
  {
    assert Consecutive([], seqno);
    RunKeepsInvAnyOrder(Inbound(NEW_COUNTERS, seqno, []), ops, t);
    var base: nat :| Consecutive(t.used, base) && t.seqno == (base + |t.used|) % SEQ_LIMIT;
    forall i, j | 0 <= i < j < |t.used| ensures t.used[i] != t.used[j] {
      ConsecutiveDistinct(t.used, base, i, j);
    }
  }

  /** A pending request goes away exactly when the second of the two directions switches; only if that is
      the outbound one does the inbound key stay in use, and Transport never switches in that order. */
  lemma RequestWithdrawnIff(s: Inbound, op: Op)
    requires s.c.initCount <= 2 && s.c.needRekey && NextAnyOrder(s, op).Some?
    ensures !NextAnyOrder(s, op).value.c.needRekey
      <==> (op.OpSwitchOut? && s.c.initCount == 2) || (op.OpSwitchIn? && s.c.initCount == 1)
    ensures op.OpSwitchOut? ==> NextAnyOrder(s, op).value.used == s.used
    ensures Inv(s) && Next(s, op).Some? ==> !(op.OpSwitchOut? && s.c.initCount == 2)
  {
  }

  /** Such an order, from a fresh Packetizer: the key that used up its bytes is no longer asked about. */
  lemma LateOutboundSwitch()
    ensures exists t :: RunsAnyOrder(Inbound(NEW_COUNTERS, 0, []), [OpSwitchIn(false), OpReceived(REKEY_BYTES), OpSwitchOut], t)
                        && !t.c.needRekey && t.c.receivedBytes >= REKEY_BYTES && |t.used| == 1
  {
    var s0 := Inbound(NEW_COUNTERS, 0, []);
    var s1 := NextAnyOrder(s0, OpSwitchIn(false)).value;
    var s2 := NextAnyOrder(s1, OpReceived(REKEY_BYTES)).value;
    var t := NextAnyOrder(s2, OpSwitchOut).value;
    var ops := [OpSwitchIn(false), OpReceived(REKEY_BYTES), OpSwitchOut];
    assert ops[1..] == [OpReceived(REKEY_BYTES), OpSwitchOut] && ops[1..][1..] == [OpSwitchOut] && ops[1..][1..][1..] == [];
    assert s2.c.needRekey && s2.c.initCount == 2 && |s2.used| == 1;
    assert RunsAnyOrder(t, [], t);
    assert RunsAnyOrder(s2, [OpSwitchOut], t);
    assert RunsAnyOrder(s1, [OpReceived(REKEY_BYTES), OpSwitchOut], t);
    assert RunsAnyOrder(s0, ops, t);
  }

  // ---------- sending under one key ----------

  /** Packets and bytes sent since the last outbound switch. */
  function SentUnder(ops: seq<Op>): (nat, nat) {
    if ops == [] then (0, 0)
    else
      var (packets, bytes) := SentUnder(ops[..|ops| - 1]);
      match ops[|ops| - 1]
      case OpSent(n) => (packets + 1, bytes + n)
      case OpSwitchOut => (0, 0)
      case _ => (packets, bytes)
  }

  /** Every inbound switch, which can end an exchange and with it the request, was followed by a send. */
  ghost predicate SentSinceSwitchIn(ops: seq<Op>) {
    forall i :: 0 <= i < |ops| && ops[i].OpSwitchIn? ==> exists j :: i < j < |ops| && ops[j].OpSent?
  }

  ghost predicate Outbound(ops: seq<Op>, c: Counters) {
    && SentUnder(ops) == (c.sentPackets, c.sentBytes)
    && ((c.sentPackets >= 0x2000_0000 || c.sentBytes >= 0x2000_0000) && SentSinceSwitchIn(ops) ==> c.needRekey)
  }

  lemma SentSinceEarlier(ops: seq<Op>, op: Op)
    requires SentSinceSwitchIn(ops + [op]) && !op.OpSent?
    ensures SentSinceSwitchIn(ops) && !op.OpSwitchIn?
  {
    var all := ops + [op];
    assert all[|ops|] == op;
    forall i | 0 <= i < |ops| && ops[i].OpSwitchIn? ensures exists j :: i < j < |ops| && ops[j].OpSent? {
      assert all[i] == ops[i];
      var j :| i < j < |all| && all[j].OpSent?;
      assert j < |ops| && ops[j].OpSent?;
    }
  }

  /** One step of either order keeps the outbound books. */
  lemma NextKeepsOutbound(s: Inbound, op: Op, ops: seq<Op>)
    requires Outbound(ops, s.c)
    ensures Next(s, op).Some? ==> Outbound(ops + [op], Next(s, op).value.c)
    ensures NextAnyOrder(s, op).Some? ==> Outbound(ops + [op], NextAnyOrder(s, op).value.c)
  {
    assert (ops + [op])[..|ops|] == ops;
    if !op.OpSent? && SentSinceSwitchIn(ops + [op]) {
      SentSinceEarlier(ops, op);
    }
    hide SentSinceSwitchIn;
  }

  lemma {:induction false} RunKeepsOutbound(s: Inbound, done: seq<Op>, ops: seq<Op>, t: Inbound)
    requires Outbound(done, s.c) && Runs(s, ops, t)
    ensures Outbound(done + ops, t.c)
    decreases |ops|
  {
    hide Next, Outbound;
    if ops == [] {
      assert done + ops == done;
    } else {
      NextKeepsOutbound(s, ops[0], done);
      RunKeepsOutbound(Next(s, ops[0]).value, done + [ops[0]], ops[1..], t);
      assert done + [ops[0]] + ops[1..] == done + ops;
    }
  }

  lemma {:induction false} RunKeepsOutboundAnyOrder(s: Inbound, done: seq<Op>, ops: seq<Op>, t: Inbound)
    requires Outbound(done, s.c) && RunsAnyOrder(s, ops, t)
    ensures Outbound(done + ops, t.c)
    decreases |ops|
  {
    hide NextAnyOrder, Outbound;
    if ops == [] {
      assert done + ops == done;
    } else {
      NextKeepsOutbound(s, ops[0], done);
      RunKeepsOutboundAnyOrder(NextAnyOrder(s, ops[0]).value, done + [ops[0]], ops[1..], t);
      assert done + [ops[0]] + ops[1..] == done + ops;
    }
  }

  lemma OutboundMeans(ops: seq<Op>, c: Counters)
    requires Outbound(ops, c)
    requires SentUnder(ops).0 >= 0x2000_0000 || SentUnder(ops).1 >= 0x2000_0000
    requires SentSinceSwitchIn(ops)
    ensures c.needRekey
  {
  }

  /** Over any run from a fresh connection, with the switches in whatever order: once 2^29 packets or 2^29 bytes
      have gone out under one key, a request for new keys is pending from that send on, and only an inbound
      switch with no send after it can have withdrawn it. */
  lemma OutboundKeyLifetime(seqno: nat, ops: seq<Op>, t: Inbound)
    requires Runs(Inbound(NEW_COUNTERS, seqno, []), ops, t) || RunsAnyOrder(Inbound(NEW_COUNTERS, seqno, []), ops, t)
    requires SentUnder(ops).0 >= 0x2000_0000 || SentUnder(ops).1 >= 0x2000_0000
    requires SentSinceSwitchIn(ops)
    ensures t.c.needRekey
  {
    var s := Inbound(NEW_COUNTERS, seqno, []);
    assert Outbound([], s.c);
    assert [] + ops == ops;
    hide Runs, RunsAnyOrder, Outbound;
    if Runs(s, ops, t) {
      RunKeepsOutbound(s, [], ops, t);
    } else {
      RunKeepsOutboundAnyOrder(s, [], ops, t);
    }
    OutboundMeans(ops, t.c);
  }

  // ---------- AEAD counters ----------

  /** The initialisation vector after n packets under one key. */
  function NthIv(iv: seq<byte>, n: nat): (r: Option<seq<byte>>)
    requires |iv| == 12
    ensures r.Some? ==> |r.value| == 12
  {
    if n == 0 then Some(iv)
    else
      var p := NthIv(iv, n - 1);
      if p.None? then None else IncIv(p.value)
  }

  lemma {:induction false} NthIvCounts(iv: seq<byte>, n: nat)
    requires |iv| == 12
    ensures NthIv(iv, n).Some? ==> BE(NthIv(iv, n).value[4..]) == BE(iv[4..]) + n
    ensures NthIv(iv, n).Some? ==> NthIv(iv, n).value[..4] == iv[..4]
  {
    if n > 0 && NthIv(iv, n).Some? {
      NthIvCounts(iv, n - 1);
      var p := NthIv(iv, n - 1).value;
      Pow256Eight();
      ToBERoundTrip(BE(p[4..]) + 1, 8);
      assert NthIv(iv, n).value[4..] == ToBE(BE(p[4..]) + 1, 8);
      assert NthIv(iv, n).value[..4] == p[..4];
    }
  }

  /** RFC 5647 section 7.1: the vectors used under one key are pairwise distinct; the counter stops
      with an error rather than wrap around. */
  lemma IvsDistinct(iv: seq<byte>, i: nat, j: nat)
    requires |iv| == 12 && i < j && NthIv(iv, i).Some? && NthIv(iv, j).Some?
    ensures NthIv(iv, i).value != NthIv(iv, j).value
  {
    NthIvCounts(iv, i);
    NthIvCounts(iv, j);
  }

  /** The vectors of the packets sent between two key changes, as Send leaves them. */
  ghost predicate SentUnderKey(d: Dir, packets: seq<(seq<byte>, seq<byte>)>, ivs: seq<seq<byte>>)
    decreases |packets|
  {
    && d.suite.Aead? && |d.iv| == 12 && d.seqno < SEQ_LIMIT
    && |ivs| == |packets|
    && (packets != [] ==>
        && |packets[0].1| < 256 && ivs[0] == d.iv
        && Send(d, packets[0].0, packets[0].1, true).Some?
        && SentUnderKey(Send(d, packets[0].0, packets[0].1, true).value.1, packets[1..], ivs[1..]))
  }

  lemma {:induction false} NthIvShift(iv: seq<byte>, n: nat)
    requires |iv| == 12 && IncIv(iv).Some?
    ensures NthIv(iv, n + 1) == NthIv(IncIv(iv).value, n)
  {
    if n > 0 {
      NthIvShift(iv, n - 1);
    } else {
      assert NthIv(iv, 0) == Some(iv);
    }
  }

  lemma SendIncrements(d: Dir, payload: seq<byte>, pad: seq<byte>)
    requires d.suite.Aead? && |d.iv| == 12 && d.seqno < SEQ_LIMIT && |pad| < 256 && Send(d, payload, pad, true).Some?
    ensures IncIv(d.iv).Some? && Send(d, payload, pad, true).value.1.iv == IncIv(d.iv).value
  {
  }

  lemma {:induction false} SentIvsAreNth(d: Dir, packets: seq<(seq<byte>, seq<byte>)>, ivs: seq<seq<byte>>, i: nat)
    requires SentUnderKey(d, packets, ivs) && i < |ivs|
    ensures NthIv(d.iv, i) == Some(ivs[i])
    decreases i
  {
    SendIncrements(d, packets[0].0, packets[0].1);
    var next := Send(d, packets[0].0, packets[0].1, true).value.1;
    assert NthIv(d.iv, 0) == Some(d.iv);
    hide Send, NthIv, IncIv;
    if i > 0 {
      SentIvsAreNth(next, packets[1..], ivs[1..], i - 1);
      NthIvShift(d.iv, i - 1);
    }
  }

  lemma SentIvsDistinct(d: Dir, packets: seq<(seq<byte>, seq<byte>)>, ivs: seq<seq<byte>>, i: nat, j: nat)
    requires SentUnderKey(d, packets, ivs) && i < j < |ivs|
    ensures ivs[i] != ivs[j]
  {
    SentIvsAreNth(d, packets, ivs, i);
    SentIvsAreNth(d, packets, ivs, j);
    IvsDistinct(d.iv, i, j);
  }

  // ---------- the receiving direction ----------

  /** The vectors with which successive packets are opened between two key changes, whatever bytes the
      peer sends. All but the last attempt succeeded: a failure ends the connection. */
  ghost predicate OpenedUnderKey(d: Dir, kexDone: bool, stream: seq<byte>, ivs: seq<seq<byte>>)
    decreases |ivs|
  {
    && d.suite.Aead? && d.suite.blockSize >= 4 && |d.iv| == 12 && d.seqno < SEQ_LIMIT
    && (ivs != [] ==> ivs[0] == d.iv)
    && (|ivs| > 1 ==>
        var p := Parse(d, kexDone, stream);
        p.Good? && OpenedUnderKey(p.next, kexDone, p.rest, ivs[1..]))
  }

  lemma ParseIncrements(d: Dir, kexDone: bool, stream: seq<byte>)
    requires d.suite.Aead? && d.suite.blockSize >= 4 && |d.iv| == 12 && d.seqno < SEQ_LIMIT
    requires Parse(d, kexDone, stream).Good?
    ensures IncIv(d.iv).Some? && Parse(d, kexDone, stream).next.iv == IncIv(d.iv).value
  {
    hide BE, IncIv;
  }

  lemma {:induction false} OpenedIvsAreNth(d: Dir, kexDone: bool, stream: seq<byte>, ivs: seq<seq<byte>>, i: nat)
    requires OpenedUnderKey(d, kexDone, stream, ivs) && i < |ivs|
    ensures NthIv(d.iv, i) == Some(ivs[i])
    decreases i
  {
    assert NthIv(d.iv, 0) == Some(d.iv);
    if i > 0 {
      ParseIncrements(d, kexDone, stream);
      var p := Parse(d, kexDone, stream);
      hide Parse, NthIv, IncIv;
      OpenedIvsAreNth(p.next, kexDone, p.rest, ivs[1..], i - 1);
      NthIvShift(d.iv, i - 1);
    }
  }

  /** RFC 5647 section 7.1 for the receiver: no vector opens two packets under one key. */
  lemma OpenedIvsDistinct(d: Dir, kexDone: bool, stream: seq<byte>, ivs: seq<seq<byte>>, i: nat, j: nat)
    requires OpenedUnderKey(d, kexDone, stream, ivs) && i < j < |ivs|
    ensures ivs[i] != ivs[j]
  {
    OpenedIvsAreNth(d, kexDone, stream, ivs, i);
    OpenedIvsAreNth(d, kexDone, stream, ivs, j);
    IvsDistinct(d.iv, i, j);
  }
}
