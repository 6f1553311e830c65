/** Two channel endpoints joined by FIFO queues, as a transition system: any number of threads
    on both sides, interleaved at every lock. The conservation law of RFC 4254 section 5.2. */
module FlowControl {
  import opened Channels
  import opened Options

  /** A byte on the wire, modelled together with the stream it was sent on. */
  datatype Cell = Cell(err: bool, value: int)

  type Message = Msg<Cell>

  /** An endpoint: the channel itself, what its threads hold between two locked sections,
      the queue to the peer, and the record of what was sent and received. */
  datatype Endpoint = Endpoint(
    chan: Chan<Cell>,
    unlinked: bool,
    held: seq<Message>,
    reading: seq<nat>,
    moving: seq<seq<Cell>>,
    out: seq<Message>,
    sent: seq<Cell>,
    got: seq<Cell>,
    gotErr: seq<Cell>,
    everCombined: bool)

  datatype Move =
    | Send(bytes: seq<Cell>, err: bool)
    | Transmit(i: nat)
    | Recv(err: bool, nbytes: nat)
    | Ack(i: nat)
    | Combine(on: bool)
    | FinishCombine(i: nat)
    | ShutdownWrite
    | ShutdownRead
    | CloseLocal
    | Deliver

  function RemoveAt<T>(s: seq<T>, i: nat): seq<T>
    requires i < |s|
  {
    s[..i] + s[i + 1..]
  }

  function CellsOf(m: Message): seq<Cell> {
    match m
    case Data(b) => b
    case ExtData(_, b) => b
    case _ => []
  }

  predicate AllTagged(err: bool, s: seq<Cell>) {
    forall i :: 0 <= i < |s| ==> s[i].err == err
  }

  /** A thread of me hands one of its messages to the transport. */
  function Queue(me: Endpoint, i: nat): Endpoint
    requires i < |me.held|
  {
    me.(held := RemoveAt(me.held, i), out := me.out + [me.held[i]],
        sent := me.sent + CellsOf(me.held[i]))
  }

  /** The transport of me dispatches one message from the peer; a channel that is no longer
      linked ignores it. */
  function Handle(me: Endpoint, m: Message): Endpoint {
    if me.unlinked then me
    else
      match m
      case Data(b) => me.(chan := Fed(me.chan, b))
      case ExtData(code, b) => me.(chan := FedExtended(me.chan, code, b))
      case Adjust(n) => me.(chan := me.chan.(outWindow := me.chan.outWindow + n))
      case EofMsg => me.(chan := EofHandled(me.chan))
      case CloseMsg =>
        var (msgs, c) := Closing(me.chan);
        me.(chan := c, held := me.held + msgs, unlinked := true)
  }

  function MessageFor(bytes: seq<Cell>, err: bool): Message {
    if err then ExtData(1, bytes) else Data(bytes)
  }

  function Sending(me: Endpoint, bytes: seq<Cell>, err: bool): Option<Endpoint>
    requires me.chan.outMax > 64
  {
    var g := GrantOf(me.chan, |bytes|);
    if !g.Granted? || g.size == 0 || !AllTagged(err, bytes) then None
    else Some(me.(chan := Charge(me.chan, g), held := me.held + [MessageFor(bytes[..g.size], err)]))
  }

  function Receiving(me: Endpoint, err: bool, n: nat): Option<Endpoint> {
    var r := TakeOf(me.chan, err, n);
    if r.None? then None
    else
      var next := me.(chan := AfterTake(me.chan, err, n), reading := me.reading + [|r.value|]);
      Some(if err then next.(gotErr := me.gotErr + r.value) else next.(got := me.got + r.value))
  }

  function Acking(me: Endpoint, i: nat): Endpoint
    requires i < |me.reading|
  {
    var (ack, c) := AckOf(me.chan, me.reading[i]);
    var next := me.(chan := c, reading := RemoveAt(me.reading, i));
    if ack > 0 then next.(held := me.held + [Adjust(ack)]) else next
  }

  function Combining(me: Endpoint, on: bool): Endpoint {
    var (data, c) := Combined(me.chan, on);
    var next := me.(chan := c, everCombined := me.everCombined || on);
    if |data| > 0 then next.(moving := me.moving + [data]) else next
  }

  function Merging(me: Endpoint, i: nat): Endpoint
    requires i < |me.moving|
  {
    me.(chan := Fed(me.chan, me.moving[i]), moving := RemoveAt(me.moving, i))
  }

  function Ending(me: Endpoint): Endpoint {
    var (msgs, c) := EofOf(me.chan);
    me.(chan := c, held := me.held + msgs)
  }

  function Leaving(me: Endpoint): Endpoint {
    var (msgs, c) := Closing(me.chan);
    me.(chan := c, held := me.held + msgs)
  }

  /** One move of me. None when the move is not possible here: a thread would wait. */
  function Local(me: Endpoint, move: Move): Option<Endpoint>
    requires me.chan.outMax > 64
  {
    match move
    case Send(bytes, err) => Sending(me, bytes, err)
    case Transmit(i) => if i < |me.held| then Some(Queue(me, i)) else None
    case Recv(err, n) => Receiving(me, err, n)
    case Ack(i) => if i < |me.reading| then Some(Acking(me, i)) else None
    case Combine(on) => Some(Combining(me, on))
    case FinishCombine(i) => if i < |me.moving| then Some(Merging(me, i)) else None
    case ShutdownWrite => Some(Ending(me))
    case ShutdownRead => Some(me.(chan := me.chan.(eofReceived := true)))
    case CloseLocal => Some(Leaving(me))
    case Deliver => None
  }

  datatype System = System(a: Endpoint, b: Endpoint)

  /** A move of the endpoint a; Deliver takes the oldest message of the peer's queue. */
  function Step(s: System, move: Move): Option<System>
    requires s.a.chan.outMax > 64
  {
    if move.Deliver? then
      if s.b.out == [] then None
      else Some(System(Handle(s.a, s.b.out[0]), s.b.(out := s.b.out[1..])))
    else
      var r := Local(s.a, move);
      if r.None? then None else Some(s.(a := r.value))
  }

  function Flip(s: System): System {
    System(s.b, s.a)
  }

  // ---------- the books ----------

  function Loads(q: seq<Message>): nat {
    if q == [] then 0 else |CellsOf(q[0])| + Loads(q[1..])
  }

  function CreditOf(m: Message): nat {
    if m.Adjust? then m.n else 0
  }

  function Credits(q: seq<Message>): nat {
    if q == [] then 0 else CreditOf(q[0]) + Credits(q[1..])
  }

  function Sum(s: seq<nat>): nat {
    if s == [] then 0 else s[0] + Sum(s[1..])
  }

  function Sizes(s: seq<seq<Cell>>): nat {
    if s == [] then 0 else |s[0]| + Sizes(s[1..])
  }

  /** Bytes and credits of the direction s to r, wherever they are. */
  function Account(s: Endpoint, r: Endpoint): nat {
    s.chan.outWindow + Loads(s.held) + Loads(s.out)
    + |r.chan.inBuf| + |r.chan.errBuf| + Sizes(r.moving) + Sum(r.reading)
    + r.chan.sofar + Credits(r.held) + Credits(r.out)
  }

  predicate HasClose(q: seq<Message>) {
    exists i :: 0 <= i < |q| && q[i] == CloseMsg
  }

  predicate Wellformed(q: seq<Message>) {
    forall i :: 0 <= i < |q| ==>
      && (q[i].Data? ==> AllTagged(false, q[i].bytes))
      && (q[i].ExtData? ==> q[i].code == 1 && AllTagged(true, q[i].bytes))
  }

  /** While the receiving side is open, nothing of the initial window is lost or created. */
  predicate Balanced(s: Endpoint, r: Endpoint) {
    && (Open(r.chan) ==> Account(s, r) == r.chan.inWindow)
    && r.chan.sofar <= r.chan.threshold == r.chan.inWindow / 10
    && (HasClose(r.held) || HasClose(r.out) || s.unlinked ==> r.chan.closed)
    && Wellformed(s.held) && Wellformed(s.out)
    && s.chan.active && s.chan.outMax > 64 && (s.unlinked ==> s.chan.closed)
  }

  predicate Inv(s: System) {
    Balanced(s.a, s.b) && Balanced(s.b, s.a)
  }

  lemma {:induction false} LoadsAppend(p: seq<Message>, q: seq<Message>)
    ensures Loads(p + q) == Loads(p) + Loads(q) && Credits(p + q) == Credits(p) + Credits(q)
  {
    if p == [] {
      assert p + q == q;
    } else {
      assert (p + q)[1..] == p[1..] + q;
      LoadsAppend(p[1..], q);
    }
  }

  lemma {:induction false} SumAppend(p: seq<nat>, q: seq<nat>)
    ensures Sum(p + q) == Sum(p) + Sum(q)
  {
    if p == [] {
      assert p + q == q;
    } else {
      assert (p + q)[1..] == p[1..] + q;
      SumAppend(p[1..], q);
    }
  }

  lemma {:induction false} SizesAppend(p: seq<seq<Cell>>, q: seq<seq<Cell>>)
    ensures Sizes(p + q) == Sizes(p) + Sizes(q)
  {
    if p == [] {
      assert p + q == q;
    } else {
      assert (p + q)[1..] == p[1..] + q;
      SizesAppend(p[1..], q);
    }
  }

  lemma QueueOne(q: seq<Message>, m: Message)
    ensures Loads(q + [m]) == Loads(q) + |CellsOf(m)| && Credits(q + [m]) == Credits(q) + CreditOf(m)
    ensures HasClose(q + [m]) ==> HasClose(q) || m == CloseMsg
    ensures Wellformed(q) && Wellformed([m]) ==> Wellformed(q + [m])
  {
    LoadsAppend(q, [m]);
    assert Loads([m]) == |CellsOf(m)| && Credits([m]) == CreditOf(m);
    if Wellformed(q) && Wellformed([m]) {
      assert [m][0] == m;
    }
  }

  lemma DequeueLoads(q: seq<Message>, i: nat)
    requires i < |q|
    ensures Loads(q) == Loads(RemoveAt(q, i)) + |CellsOf(q[i])|
    ensures Credits(q) == Credits(RemoveAt(q, i)) + CreditOf(q[i])
  {
    var m := q[i];
    assert Loads([m]) == |CellsOf(m)| && Credits([m]) == CreditOf(m);
    CutAt(q, i);
    hide Loads, Credits, CellsOf, CreditOf;
    LoadsAppend(q[..i], [m] + q[i + 1..]);
    LoadsAppend([m], q[i + 1..]);
    LoadsAppend(q[..i], q[i + 1..]);
  }

  lemma RemovedFrom<T>(q: seq<T>, i: nat, j: nat)
    requires i < |q| && j < |RemoveAt(q, i)|
    ensures RemoveAt(q, i)[j] == q[if j < i then j else j + 1]
  {
  }

  lemma DequeueAt(q: seq<Message>, i: nat)
    requires i < |q|
    ensures Loads(q) == Loads(RemoveAt(q, i)) + |CellsOf(q[i])|
    ensures Credits(q) == Credits(RemoveAt(q, i)) + CreditOf(q[i])
    ensures HasClose(RemoveAt(q, i)) || q[i] == CloseMsg ==> HasClose(q)
    ensures Wellformed(q) ==> Wellformed(RemoveAt(q, i)) && Wellformed([q[i]])
  {
    hide Loads, Credits, CellsOf, CreditOf;
    DequeueLoads(q, i);
    forall j | 0 <= j < |RemoveAt(q, i)| ensures RemoveAt(q, i)[j] in q {
      RemovedFrom(q, i, j);
    }
    if HasClose(RemoveAt(q, i)) {
      var j :| 0 <= j < |RemoveAt(q, i)| && RemoveAt(q, i)[j] == CloseMsg;
    }
  }

  lemma CutAt<T>(s: seq<T>, i: nat)
    requires i < |s|
    ensures s == s[..i] + ([s[i]] + s[i + 1..])
  {
  }

  lemma TakeOneNumber(s: seq<nat>, i: nat)
    requires i < |s|
    ensures Sum(s) == Sum(RemoveAt(s, i)) + s[i]
  {
    var p, q := s[..i], s[i + 1..];
    CutAt(s, i);
    assert Sum([s[i]] + q) == s[i] + Sum(q) by {
      assert ([s[i]] + q)[1..] == q;
    }
    hide Sum;
    SumAppend(p, [s[i]] + q);
    SumAppend(p, q);
  }

  lemma TakeOneBlock(s: seq<seq<Cell>>, i: nat)
    requires i < |s|
    ensures Sizes(s) == Sizes(RemoveAt(s, i)) + |s[i]|
  {
    var p, q := s[..i], s[i + 1..];
    CutAt(s, i);
    assert Sizes([s[i]] + q) == |s[i]| + Sizes(q) by {
      assert ([s[i]] + q)[1..] == q;
    }
    hide Sizes;
    SizesAppend(p, [s[i]] + q);
    SizesAppend(p, q);
  }

  // ---------- every move keeps the books ----------

  ghost predicate Keeps(me: Endpoint, peer: Endpoint, next: Endpoint) {
    Balanced(me, peer) && Balanced(peer, me) ==> Balanced(next, peer) && Balanced(peer, next)
  }

  lemma SendKeeps(me: Endpoint, peer: Endpoint, bytes: seq<Cell>, err: bool)
    requires me.chan.outMax > 64
    ensures var r := Sending(me, bytes, err); r.Some? ==> Keeps(me, peer, r.value)
  {
    var g := GrantOf(me.chan, |bytes|);
    if g.Granted? && AllTagged(err, bytes) {
      var m := MessageFor(bytes[..g.size], err);
      assert Wellformed([m]) && |CellsOf(m)| == g.size && CreditOf(m) == 0 && m != CloseMsg;
      hide Loads, Credits, Sum, Sizes, HasClose, Wellformed, AllTagged, CellsOf, CreditOf;
      QueueOne(me.held, m);
    }
  }

  lemma TransmitKeeps(me: Endpoint, peer: Endpoint, i: nat)
    requires i < |me.held|
    ensures Keeps(me, peer, Queue(me, i))
  {
    hide Loads, Credits, HasClose, Wellformed, RemoveAt, CellsOf, CreditOf;
    DequeueAt(me.held, i);
    QueueOne(me.out, me.held[i]);
    CloseAtEnd(me.out, me.held[i]);
  }

  lemma CloseAtEnd(q: seq<Message>, m: Message)
    ensures HasClose(q + [m]) <==> HasClose(q) || m == CloseMsg
  {
    if HasClose(q) {
      var i :| 0 <= i < |q| && q[i] == CloseMsg;
      assert (q + [m])[i] == CloseMsg;
    }
    if m == CloseMsg {
      assert (q + [m])[|q|] == CloseMsg;
    }
  }

  lemma RecvKeeps(me: Endpoint, peer: Endpoint, err: bool, n: nat)
    ensures var r := Receiving(me, err, n); r.Some? ==> Keeps(me, peer, r.value)
  {
    var r := TakeOf(me.chan, err, n);
    if r.Some? {
      SumAppend(me.reading, [|r.value|]);
      assert Sum([|r.value|]) == |r.value|;
    }
  }

  lemma AdjustIsWellformed(n: nat)
    ensures Wellformed([Adjust(n)]) && CellsOf(Adjust(n)) == [] && CreditOf(Adjust(n)) == n
  {
  }

  lemma AckCounts(c: Chan<Cell>, n: nat)
    requires c.sofar <= c.threshold
    ensures var (ack, d) := AckOf(c, n);
      && d == c.(sofar := d.sofar)
      && (Open(c) ==> d.sofar + ack == c.sofar + n)
      && d.sofar <= d.threshold
  {
  }

  lemma AdjustIsEmpty(n: nat)
    ensures CellsOf(Adjust(n)) == [] && CreditOf(Adjust(n)) == n
  {
  }

  lemma AckKeeps(me: Endpoint, peer: Endpoint, i: nat)
    requires i < |me.reading|
    ensures Keeps(me, peer, Acking(me, i))
  {
    hide Loads, Credits, Sum, Sizes, HasClose, Wellformed, RemoveAt, AckOf, CellsOf;
    if Balanced(me, peer) && Balanced(peer, me) {
      var ack := AckOf(me.chan, me.reading[i]).0;
      TakeOneNumber(me.reading, i);
      AckCounts(me.chan, me.reading[i]);
      AdjustIsWellformed(ack);
      QueueOne(me.held, Adjust(ack));
      AdjustIsEmpty(ack);
    }
  }

  lemma CombineKeeps(me: Endpoint, peer: Endpoint, on: bool)
    ensures Keeps(me, peer, Combining(me, on))
  {
    var data := Combined(me.chan, on).0;
    SizesAppend(me.moving, [data]);
    assert Sizes([data]) == |data|;
  }

  lemma FinishCombineKeeps(me: Endpoint, peer: Endpoint, i: nat)
    requires i < |me.moving|
    ensures Keeps(me, peer, Merging(me, i))
  {
    TakeOneBlock(me.moving, i);
  }

  lemma EofKeeps(q: seq<Message>, c: Chan<Cell>)
    ensures var ms := EofOf(c).0;
      Loads(q + ms) == Loads(q) && Credits(q + ms) == Credits(q)
      && (HasClose(q + ms) ==> HasClose(q)) && (Wellformed(q) ==> Wellformed(q + ms))
  {
    if c.eofSent {
      assert q + [] == q;
    } else {
      QueueOne(q, EofMsg);
    }
  }

  lemma ClosingKeeps(q: seq<Message>, c: Chan<Cell>)
    ensures var ms := Closing(c).0;
      Loads(q + ms) == Loads(q) && Credits(q + ms) == Credits(q)
      && (HasClose(q + ms) && c.active ==> HasClose(q) || Closing(c).1.closed)
      && (Wellformed(q) ==> Wellformed(q + ms))
  {
    if !c.active || c.closed {
      assert q + [] == q;
    } else {
      EofKeeps(q, c);
      QueueOne(q + EofOf(c).0, CloseMsg);
      assert q + Closing(c).0 == q + EofOf(c).0 + [CloseMsg];
    }
  }

  lemma ShutdownKeeps(me: Endpoint, peer: Endpoint)
    ensures Keeps(me, peer, Ending(me)) && Keeps(me, peer, Leaving(me))
    ensures Keeps(me, peer, me.(chan := me.chan.(eofReceived := true)))
  {
    EofKeeps(me.held, me.chan);
    ClosingKeeps(me.held, me.chan);
  }

  lemma LocalKeeps(me: Endpoint, peer: Endpoint, move: Move)
    requires me.chan.outMax > 64
    ensures var r := Local(me, move); r.Some? ==> Keeps(me, peer, r.value)
  {
    hide Keeps, Sending, Receiving, Acking, Combining, Merging, Ending, Leaving, Queue;
    match move
    case Send(bytes, err) => SendKeeps(me, peer, bytes, err);
    case Transmit(i) => if i < |me.held| { TransmitKeeps(me, peer, i); }
    case Recv(err, n) => RecvKeeps(me, peer, err, n);
    case Ack(i) => if i < |me.reading| { AckKeeps(me, peer, i); }
    case Combine(on) => CombineKeeps(me, peer, on);
    case FinishCombine(i) => if i < |me.moving| { FinishCombineKeeps(me, peer, i); }
    case Deliver =>
    case _ => ShutdownKeeps(me, peer);
  }

  /** The effect of a message on its receiver, counted in bytes and credits. */
  lemma HandleCounts(me: Endpoint, m: Message)
    requires m.ExtData? ==> m.code == 1
    requires me.unlinked ==> me.chan.closed
    ensures var me' := Handle(me, m);
      && me'.moving == me.moving && me'.reading == me.reading && me'.out == me.out
      && me'.chan.sofar == me.chan.sofar && me'.chan.inWindow == me.chan.inWindow
      && me'.chan.threshold == me.chan.threshold && me'.chan.outMax == me.chan.outMax
      && me'.chan.active == me.chan.active
      && (me.chan.closed ==> me'.chan.closed)
      && (Open(me'.chan) ==> Open(me.chan))
      && (!me.unlinked ==>
          && me'.chan.outWindow == me.chan.outWindow + CreditOf(m)
          && |me'.chan.inBuf| + |me'.chan.errBuf|
             == |me.chan.inBuf| + |me.chan.errBuf| + |CellsOf(m)|
          && me'.unlinked == (m == CloseMsg))
      && (me.unlinked ==> me' == me)
      && Loads(me'.held) == Loads(me.held) && Credits(me'.held) == Credits(me.held)
      && (Wellformed(me.held) ==> Wellformed(me'.held))
      && (me.chan.active && m == CloseMsg ==> me'.chan.closed)
      && (m != CloseMsg ==> me'.held == me.held)
  {
    hide Loads, Credits, HasClose, Wellformed;
    ClosingKeeps(me.held, me.chan);
  }

  lemma DeliverKeeps(me: Endpoint, peer: Endpoint)
    requires Balanced(me, peer) && Balanced(peer, me) && peer.out != []
    ensures var me', peer' := Handle(me, peer.out[0]), peer.(out := peer.out[1..]);
            Balanced(me', peer') && Balanced(peer', me')
  {
    var m := peer.out[0];
    assert RemoveAt(peer.out, 0) == peer.out[1..];
    assert m.ExtData? ==> m.code == 1;
    hide Loads, Credits, Sum, Sizes, HasClose, Wellformed, RemoveAt, Handle, CellsOf, CreditOf, Open;
    DequeueAt(peer.out, 0);
    HandleCounts(me, m);
  }

  // ---------- what is delivered ----------

  function Flight(q: seq<Message>): seq<Cell> {
    if q == [] then [] else CellsOf(q[0]) + Flight(q[1..])
  }

  function Concat(s: seq<seq<Cell>>): seq<Cell> {
    if s == [] then [] else s[0] + Concat(s[1..])
  }

  /** The bytes of one stream, in order. */
  function Only(err: bool, s: seq<Cell>): seq<Cell> {
    if s == [] then []
    else (if s[0].err == err then [s[0]] else []) + Only(err, s[1..])
  }

  /** What r has had on its stdout and stderr buffers, read or not. */
  function OutSide(r: Endpoint): seq<Cell> {
    r.got + r.chan.inBuf
  }

  function ErrSide(r: Endpoint): seq<Cell> {
    r.gotErr + r.chan.errBuf
  }

  predicate AllErr(r: Endpoint) {
    && AllTagged(true, ErrSide(r)) && AllTagged(true, Concat(r.moving))
    && (!r.everCombined ==> !r.chan.combine && r.moving == [])
  }

  /** Received, buffered and in-flight bytes are exactly the bytes sent, none lost or repeated:
      stdout bytes in the order they were sent however often stderr was combined, and stderr bytes
      in order too if it never was. */
  predicate Accounted(out: seq<Cell>, err: seq<Cell>, moving: seq<Cell>, flight: seq<Cell>,
                      sent: seq<Cell>, everCombined: bool) {
    && Only(false, out) + Only(false, flight) == Only(false, sent)
    && multiset(out) + multiset(err) + multiset(moving) + multiset(flight) == multiset(sent)
    && (!everCombined ==> err + Only(true, flight) == Only(true, sent))
  }

  predicate Faithful(s: Endpoint, r: Endpoint) {
    && AllErr(r)
    && (!r.unlinked ==>
        Accounted(OutSide(r), ErrSide(r), Concat(r.moving), Flight(s.out), s.sent, r.everCombined))
  }

  lemma {:induction false} OnlyAppend(err: bool, p: seq<Cell>, q: seq<Cell>)
    ensures Only(err, p + q) == Only(err, p) + Only(err, q)
  {
    if p == [] {
      assert p + q == q;
    } else {
      assert (p + q)[1..] == p[1..] + q;
      OnlyAppend(err, p[1..], q);
    }
  }

  lemma {:induction false} OnlyTagged(err: bool, s: seq<Cell>)
    requires AllTagged(err, s)
    ensures Only(err, s) == s && Only(!err, s) == []
  {
    if s != [] {
      assert s[0].err == err;
      forall i | 0 <= i < |s[1..]| ensures s[1..][i].err == err {
        assert s[1..][i] == s[i + 1];
      }
      OnlyTagged(err, s[1..]);
    }
  }

  lemma {:induction false} FlightAppend(p: seq<Message>, q: seq<Message>)
    ensures Flight(p + q) == Flight(p) + Flight(q)
  {
    if p == [] {
      assert p + q == q;
    } else {
      assert (p + q)[1..] == p[1..] + q;
      FlightAppend(p[1..], q);
    }
  }

  lemma {:induction false} ConcatAppend(p: seq<seq<Cell>>, q: seq<seq<Cell>>)
    ensures Concat(p + q) == Concat(p) + Concat(q)
  {
    if p == [] {
      assert p + q == q;
    } else {
      assert (p + q)[1..] == p[1..] + q;
      ConcatAppend(p[1..], q);
    }
  }

  lemma FlightOne(m: Message)
    ensures Flight([m]) == CellsOf(m)
  {
    assert Flight([m]) == CellsOf(m) + [];
  }

  lemma ConcatOne(s: seq<Cell>)
    ensures Concat([s]) == s
  {
    assert Concat([s]) == s + [];
  }

  lemma Regroup(a: seq<Cell>, b: seq<Cell>, c: seq<Cell>)
    ensures a + (b + c) == (a + b) + c
    ensures multiset(b + c) == multiset(b) + multiset(c)
  {
  }

  lemma SentMore(out: seq<Cell>, err: seq<Cell>, moving: seq<Cell>, flight: seq<Cell>,
                 sent: seq<Cell>, ever: bool, b: seq<Cell>)
    requires Accounted(out, err, moving, flight, sent, ever)
    ensures Accounted(out, err, moving, flight + b, sent + b, ever)
  {
    hide Only;
    OnlyAppend(false, flight, b);
    OnlyAppend(true, flight, b);
    OnlyAppend(false, sent, b);
    OnlyAppend(true, sent, b);
    Regroup(Only(false, out), Only(false, flight), Only(false, b));
    Regroup(err, Only(true, flight), Only(true, b));
  }

  /** Handing a message to the transport. */
  lemma TransmitFaithful(me: Endpoint, peer: Endpoint, i: nat)
    requires i < |me.held| && Faithful(me, peer)
    ensures Faithful(Queue(me, i), peer)
  {
    hide Only, Flight, Concat, AllErr, AllTagged, CellsOf, Accounted;
    FlightAppend(me.out, [me.held[i]]);
    FlightOne(me.held[i]);
    if !peer.unlinked {
      SentMore(OutSide(peer), ErrSide(peer), Concat(peer.moving), Flight(me.out), me.sent,
               peer.everCombined, CellsOf(me.held[i]));
    }
  }

  lemma ReadSplit(got: seq<Cell>, buf: seq<Cell>, n: nat)
    ensures var k := Min(n, |buf|); (got + buf[..k]) + buf[k..] == got + buf
    ensures got + [] == got
  {
  }

  /** A read moves bytes from a buffer to the application: neither side changes as a whole. */
  lemma RecvFaithful(me: Endpoint, peer: Endpoint, err: bool, n: nat)
    requires Faithful(peer, me)
    ensures var r := Receiving(me, err, n); r.Some? ==> Faithful(peer, r.value)
  {
    hide Only, Flight, Concat, AllTagged, Accounted, Min;
    ReadSplit(me.got, me.chan.inBuf, n);
    ReadSplit(me.gotErr, me.chan.errBuf, n);
  }

  lemma StderrTaken(out: seq<Cell>, got: seq<Cell>, buf: seq<Cell>, moving: seq<Cell>,
                    flight: seq<Cell>, sent: seq<Cell>, ever: bool)
    requires Accounted(out, got + buf, moving, flight, sent, ever)
    ensures Accounted(out, got, moving + buf, flight, sent, true)
  {
    hide Only;
    Regroup([], got, buf);
    Regroup([], moving, buf);
  }

  lemma TaggedParts(err: bool, p: seq<Cell>, q: seq<Cell>)
    ensures AllTagged(err, p + q) <==> AllTagged(err, p) && AllTagged(err, q)
  {
    if AllTagged(err, p + q) {
      assert forall i :: 0 <= i < |p| ==> (p + q)[i] == p[i];
      assert forall i :: 0 <= i < |q| ==> (p + q)[|p| + i] == q[i];
    }
  }

  lemma MovingMore(moving: seq<seq<Cell>>, b: seq<Cell>)
    ensures Concat(if |b| > 0 then moving + [b] else moving) == Concat(moving) + b
  {
    if |b| > 0 {
      ConcatAppend(moving, [b]);
      ConcatOne(b);
    } else {
      assert Concat(moving) + b == Concat(moving);
    }
  }

  /** set_combine_stderr takes the stderr buffer away ... */
  lemma CombineFaithful(me: Endpoint, peer: Endpoint, on: bool)
    requires Faithful(peer, me)
    ensures Faithful(peer, Combining(me, on))
  {
    var buf := me.chan.errBuf;
    hide Only, Flight, Concat, AllTagged, Accounted;
    if on && !me.chan.combine {
      ReadSplit(me.gotErr, [], 0);
      MovingMore(me.moving, buf);
      TaggedParts(true, me.gotErr, buf);
      TaggedParts(true, Concat(me.moving), buf);
      if !me.unlinked {
        StderrTaken(OutSide(me), me.gotErr, buf, Concat(me.moving), Flight(peer.out), peer.sent,
                    me.everCombined);
      }
    } else if !me.unlinked {
      Weaken(OutSide(me), ErrSide(me), Concat(me.moving), Flight(peer.out), peer.sent, me.everCombined);
    }
  }

  lemma Weaken(out: seq<Cell>, err: seq<Cell>, moving: seq<Cell>, flight: seq<Cell>,
               sent: seq<Cell>, ever: bool)
    requires Accounted(out, err, moving, flight, sent, ever)
    ensures Accounted(out, err, moving, flight, sent, true)
  {
    hide Only;
  }

  lemma StderrMoved(out: seq<Cell>, err: seq<Cell>, moving: seq<Cell>, rest: seq<Cell>,
                    flight: seq<Cell>, sent: seq<Cell>, b: seq<Cell>)
    requires Accounted(out, err, moving, flight, sent, true)
    requires multiset(moving) == multiset(rest) + multiset(b) && AllTagged(true, b)
    ensures Accounted(out + b, err, rest, flight, sent, true)
  {
    OnlyTagged(true, b);
    hide Only;
    OnlyAppend(false, out, b);
    assert Only(false, out) + [] == Only(false, out);
    Regroup([], out, b);
  }

  /** ... and then feeds it to the stdout buffer. */
  lemma FinishCombineFaithful(me: Endpoint, peer: Endpoint, i: nat)
    requires Faithful(peer, me) && i < |me.moving|
    ensures Faithful(peer, Merging(me, i))
  {
    var b, rest := me.moving[i], RemoveAt(me.moving, i);
    ConcatRemove(me.moving, i);
    AllTaggedParts(Concat(me.moving), Concat(rest), b);
    Regroup(me.got, me.chan.inBuf, b);
    hide Only, Flight, Concat, AllTagged, Accounted, RemoveAt;
    if !me.unlinked {
      StderrMoved(OutSide(me), ErrSide(me), Concat(me.moving), Concat(rest), Flight(peer.out),
                  peer.sent, b);
    }
  }

  lemma AllTaggedParts(s: seq<Cell>, p: seq<Cell>, q: seq<Cell>)
    requires AllTagged(true, s) && multiset(s) == multiset(p) + multiset(q)
    ensures AllTagged(true, p) && AllTagged(true, q)
  {
    forall i | 0 <= i < |p| ensures p[i].err {
      assert p[i] in multiset(p);
      assert p[i] in multiset(s);
    }
    forall i | 0 <= i < |q| ensures q[i].err {
      assert q[i] in multiset(q);
      assert q[i] in multiset(s);
    }
  }

  lemma ConcatRemove(s: seq<seq<Cell>>, i: nat)
    requires i < |s|
    ensures multiset(Concat(s)) == multiset(Concat(RemoveAt(s, i))) + multiset(s[i])
  {
    var p, q := s[..i], s[i + 1..];
    assert RemoveAt(s, i) == p + q;
    hide Concat, RemoveAt;
    CutAt(s, i);
    ConcatOne(s[i]);
    ConcatAppend(p, [s[i]] + q);
    ConcatAppend([s[i]], q);
    ConcatAppend(p, q);
    MiddleOut(Concat(p), s[i], Concat(q));
  }

  lemma MiddleOut(a: seq<Cell>, b: seq<Cell>, c: seq<Cell>)
    ensures multiset(a + (b + c)) == multiset(a + c) + multiset(b)
  {
  }

  lemma StdoutArrives(out: seq<Cell>, err: seq<Cell>, moving: seq<Cell>, later: seq<Cell>,
                      sent: seq<Cell>, ever: bool, b: seq<Cell>)
    requires Accounted(out, err, moving, b + later, sent, ever)
    requires AllTagged(false, b) || (AllTagged(true, b) && ever)
    ensures Accounted(out + b, err, moving, later, sent, ever)
  {
    if AllTagged(false, b) {
      OnlyTagged(false, b);
    }
    hide Only;
    OnlyAppend(false, b, later);
    OnlyAppend(true, b, later);
    OnlyAppend(false, out, b);
    Regroup(Only(false, out), Only(false, b), Only(false, later));
    Regroup([], b, later);
    Regroup([], out, b);
    assert [] + Only(true, later) == Only(true, later);
  }

  lemma StderrArrives(out: seq<Cell>, err: seq<Cell>, moving: seq<Cell>, later: seq<Cell>,
                      sent: seq<Cell>, ever: bool, b: seq<Cell>)
    requires Accounted(out, err, moving, b + later, sent, ever)
    requires AllTagged(true, b)
    ensures Accounted(out, err + b, moving, later, sent, ever)
  {
    OnlyTagged(true, b);
    hide Only;
    OnlyAppend(false, b, later);
    OnlyAppend(true, b, later);
    Regroup(err, b, Only(true, later));
    Regroup([], b, later);
    Regroup([], err, b);
    assert [] + Only(false, later) == Only(false, later);
  }

  lemma HeadOfFlight(q: seq<Message>)
    requires q != [] && Wellformed(q)
    ensures Flight(q) == CellsOf(q[0]) + Flight(q[1..])
    ensures q[0].Data? ==> AllTagged(false, q[0].bytes)
    ensures q[0].ExtData? ==> q[0].code == 1 && AllTagged(true, q[0].bytes)
    ensures !q[0].Data? && !q[0].ExtData? ==> Flight(q) == Flight(q[1..])
  {
    assert [] + Flight(q[1..]) == Flight(q[1..]);
  }

  lemma DataFaithful(me: Endpoint, peer: Endpoint, b: seq<Cell>, later: seq<Cell>)
    requires !me.unlinked && AllErr(me) && (AllTagged(false, b) || (AllTagged(true, b) && me.everCombined))
    requires Accounted(OutSide(me), ErrSide(me), Concat(me.moving), b + later, peer.sent, me.everCombined)
    ensures var me' := me.(chan := Fed(me.chan, b));
      && AllErr(me')
      && Accounted(OutSide(me'), ErrSide(me'), Concat(me'.moving), later, peer.sent, me'.everCombined)
  {
    hide Concat, AllTagged, Accounted;
    Regroup(me.got, me.chan.inBuf, b);
    StdoutArrives(OutSide(me), ErrSide(me), Concat(me.moving), later, peer.sent, me.everCombined, b);
  }

  lemma ExtFaithful(me: Endpoint, peer: Endpoint, b: seq<Cell>, later: seq<Cell>)
    requires !me.unlinked && AllErr(me) && AllTagged(true, b)
    requires Accounted(OutSide(me), ErrSide(me), Concat(me.moving), b + later, peer.sent, me.everCombined)
    ensures var me' := me.(chan := FedExtended(me.chan, 1, b));
      && AllErr(me')
      && Accounted(OutSide(me'), ErrSide(me'), Concat(me'.moving), later, peer.sent, me'.everCombined)
  {
    hide Concat, AllTagged, Accounted;
    if me.chan.combine {
      DataFaithful(me, peer, b, later);
    } else {
      Regroup(me.gotErr, me.chan.errBuf, b);
      TaggedParts(true, ErrSide(me), b);
      StderrArrives(OutSide(me), ErrSide(me), Concat(me.moving), later, peer.sent, me.everCombined, b);
    }
  }

  /** A message arrives. */
  lemma DeliverFaithful(me: Endpoint, peer: Endpoint)
    requires peer.out != [] && Faithful(peer, me) && Wellformed(peer.out)
    ensures Faithful(peer.(out := peer.out[1..]), Handle(me, peer.out[0]))
  {
    hide Flight, Concat, AllTagged, Accounted, Fed, FedExtended, Wellformed;
    HeadOfFlight(peer.out);
    var m, later := peer.out[0], Flight(peer.out[1..]);
    if !me.unlinked {
      match m
      case Data(b) => DataFaithful(me, peer, b, later);
      case ExtData(code, b) => ExtFaithful(me, peer, b, later);
      case _ =>
    }
  }

  /** What a move leaves alone, on the sending and on the receiving side. */
  lemma LocalFrame(me: Endpoint, move: Move)
    requires me.chan.outMax > 64
    ensures var r := Local(me, move);
      r.Some? ==>
        && (!move.Transmit? ==> SameSender(me, r.value))
        && (!move.Recv? && !move.Combine? && !move.FinishCombine? ==> SameReceiver(me, r.value))
        && r.value.chan.inWindow == me.chan.inWindow
  {
    match move
    case Send(bytes, err) => SendingFrame(me, bytes, err);
    case Recv(err, n) => ReceivingFrame(me, err, n);
    case Ack(i) => if i < |me.reading| { AckingFrame(me, i); }
    case _ =>
  }

  lemma SendingFrame(me: Endpoint, bytes: seq<Cell>, err: bool)
    requires me.chan.outMax > 64
    ensures var r := Sending(me, bytes, err);
      r.Some? ==>
        && SameSender(me, r.value) && SameReceiver(me, r.value)
        && r.value.chan.inWindow == me.chan.inWindow && r.value.chan.eofSent == me.chan.eofSent
    ensures me.chan.eofSent ==> Sending(me, bytes, err).None?
  {
  }

  lemma ReceivingFrame(me: Endpoint, err: bool, n: nat)
    ensures var r := Receiving(me, err, n);
      r.Some? ==>
        && SameSender(me, r.value) && r.value.chan.inWindow == me.chan.inWindow
        && r.value.held == me.held && r.value.chan.eofSent == me.chan.eofSent
  {
  }

  lemma AckingFrame(me: Endpoint, i: nat)
    requires i < |me.reading|
    ensures var r := Acking(me, i);
      && SameSender(me, r) && SameReceiver(me, r)
      && r.chan.inWindow == me.chan.inWindow && r.chan.eofSent == me.chan.eofSent
      && (r.held == me.held || exists n :: r.held == me.held + [Adjust(n)])
  {
  }

  predicate SameSender(me: Endpoint, next: Endpoint) {
    next.out == me.out && next.sent == me.sent
  }

  predicate SameReceiver(me: Endpoint, next: Endpoint) {
    && next.got == me.got && next.gotErr == me.gotErr && next.moving == me.moving
    && next.chan.inBuf == me.chan.inBuf && next.chan.errBuf == me.chan.errBuf
    && next.chan.combine == me.chan.combine && next.everCombined == me.everCombined
    && next.unlinked == me.unlinked
  }

  lemma SameFaithful(me: Endpoint, peer: Endpoint, next: Endpoint)
    ensures SameSender(me, next) && Faithful(me, peer) ==> Faithful(next, peer)
    ensures SameReceiver(me, next) && Faithful(peer, me) ==> Faithful(peer, next)
  {
    hide Accounted, Only, Flight, Concat, AllTagged;
  }

  lemma LocalFaithful(me: Endpoint, peer: Endpoint, move: Move)
    requires me.chan.outMax > 64
    ensures var r := Local(me, move); r.Some? && Faithful(me, peer) ==> Faithful(r.value, peer)
    ensures var r := Local(me, move); r.Some? && Faithful(peer, me) ==> Faithful(peer, r.value)
  {
    LocalFrame(me, move);
    var r := Local(me, move);
    if r.Some? {
      hide Faithful, SameSender, SameReceiver, Receiving, Combining, Merging, Queue, Sending, Acking,
        Ending, Leaving;
      SameFaithful(me, peer, r.value);
      if Faithful(me, peer) && move.Transmit? {
        TransmitFaithful(me, peer, move.i);
      }
      if Faithful(peer, me) {
        match move
        case Recv(err, n) => RecvFaithful(me, peer, err, n);
        case Combine(on) => CombineFaithful(me, peer, on);
        case FinishCombine(i) => FinishCombineFaithful(me, peer, i);
        case _ =>
      }
    }
  }

  lemma HandleFrame(me: Endpoint, m: Message)
    ensures SameSender(me, Handle(me, m))
    ensures Handle(me, m).chan.inWindow == me.chan.inWindow
  {
  }

  // ---------- whole runs ----------

  function Fresh(inWindow: nat, outWindow: nat, outMax: nat): Endpoint {
    Endpoint(Chan(true, false, false, false, outWindow, outMax, inWindow, inWindow / 10, 0, false,
                  [], [], false), false, [], [], [], [], [], [], [], false)
  }

  /** After the open handshake each side's send window is the receive window the other announced. */
  function Connected(windowA: nat, windowB: nat, maxA: int, maxB: int): System {
    System(Fresh(windowA, windowB, Clamp(MIN_PACKET_SIZE, maxB, MAX_WINDOW_SIZE)),
           Fresh(windowB, windowA, Clamp(MIN_PACKET_SIZE, maxA, MAX_WINDOW_SIZE)))
  }

  /** One event: a move by side a, or, if flipped, by side b. */
  datatype Event = Event(flipped: bool, move: Move)

  function Advance(s: System, e: Event): Option<System>
    requires s.a.chan.outMax > 64 && s.b.chan.outMax > 64
  {
    if e.flipped then
      var r := Step(Flip(s), e.move);
      if r.None? then None else Some(Flip(r.value))
    else
      Step(s, e.move)
  }

  ghost predicate Runs(s: System, events: seq<Event>, t: System)
    decreases |events|
  {
    if events == [] then s == t
    else
      && s.a.chan.outMax > 64 && s.b.chan.outMax > 64
      && Advance(s, events[0]).Some?
      && Runs(Advance(s, events[0]).value, events[1..], t)
  }

  ghost predicate Good(s: System) {
    Inv(s) && Faithful(s.a, s.b) && Faithful(s.b, s.a)
  }

  lemma StepGood(s: System, move: Move)
    requires Good(s)
    ensures Step(s, move).Some? ==> Good(Step(s, move).value)
  {
    hide Local, Handle, Balanced, Faithful;
    assert s.a.chan.outMax > 64 by { MaxKnown(s.a, s.b); }
    if move.Deliver? {
      if s.b.out != [] {
        DeliverKeeps(s.a, s.b);
        DeliverKeepsSender(s.a, s.b);
      }
    } else {
      LocalKeeps(s.a, s.b, move);
      LocalFaithful(s.a, s.b, move);
    }
  }

  lemma MaxKnown(s: Endpoint, r: Endpoint)
    requires Balanced(s, r)
    ensures s.chan.outMax > 64
  {
  }

  lemma DeliverKeepsSender(me: Endpoint, peer: Endpoint)
    requires peer.out != [] && Balanced(peer, me) && Faithful(peer, me) && Faithful(me, peer)
    ensures var me', peer' := Handle(me, peer.out[0]), peer.(out := peer.out[1..]);
            Faithful(peer', me') && Faithful(me', peer')
  {
    assert Wellformed(peer.out);
    var me', peer' := Handle(me, peer.out[0]), peer.(out := peer.out[1..]);
    assert SameReceiver(peer, peer');
    hide Faithful, Balanced, Handle, SameReceiver, SameSender, Wellformed;
    DeliverFaithful(me, peer);
    HandleFrame(me, peer.out[0]);
    SameFaithful(me, peer, me');
    SameFaithful(peer, me', peer');
  }

  lemma {:induction false} RunGood(s: System, events: seq<Event>, t: System)
    requires Good(s) && Runs(s, events, t)
    ensures Good(t)
    decreases |events|
  {
    if events != [] {
      hide Balanced, Faithful;
      StepGood(s, events[0].move);
      StepGood(Flip(s), events[0].move);
      RunGood(Advance(s, events[0]).value, events[1..], t);
    }
  }

  lemma ConnectedGood(windowA: nat, windowB: nat, maxA: int, maxB: int)
    ensures Good(Connected(windowA, windowB, maxA, maxB))
  {
  }

  lemma {:induction false} WindowIsFixed(s: System, events: seq<Event>, t: System)
    requires Runs(s, events, t)
    ensures t.a.chan.inWindow == s.a.chan.inWindow && t.b.chan.inWindow == s.b.chan.inWindow
    decreases |events|
  {
    if events != [] {
      AdvanceWindow(s, events[0]);
      hide Advance;
      WindowIsFixed(Advance(s, events[0]).value, events[1..], t);
    }
  }

  lemma AdvanceWindow(s: System, e: Event)
    requires s.a.chan.outMax > 64 && s.b.chan.outMax > 64 && Advance(s, e).Some?
    ensures var t := Advance(s, e).value;
      t.a.chan.inWindow == s.a.chan.inWindow && t.b.chan.inWindow == s.b.chan.inWindow
  {
    hide Local, Handle;
    var (me, peer) := if e.flipped then (s.b, s.a) else (s.a, s.b);
    if e.move.Deliver? {
      HandleFrame(me, peer.out[0]);
    } else {
      LocalFrame(me, e.move);
    }
  }

  /** Section 5.2 of RFC 4254, in every reachable state: while b is open, the window a may still use,
      the bytes under way and buffered, and the credit not yet returned add up to b's window. So
      a never overruns it, b never buffers more, and an adjustment always fits in 32 bits. */
  lemma WindowConserved(windowA: nat, windowB: nat, maxA: int, maxB: int, events: seq<Event>, t: System)
    requires Runs(Connected(windowA, windowB, maxA, maxB), events, t)
    ensures Open(t.b.chan) ==> Account(t.a, t.b) == windowB
    ensures Open(t.b.chan) ==> |t.b.chan.inBuf| + |t.b.chan.errBuf| <= windowB
    ensures Open(t.b.chan) ==> forall i :: 0 <= i < |t.b.held| ==> CreditOf(t.b.held[i]) <= windowB
    ensures Open(t.a.chan) ==> Account(t.b, t.a) == windowA
  {
    ConnectedGood(windowA, windowB, maxA, maxB);
    RunGood(Connected(windowA, windowB, maxA, maxB), events, t);
    WindowIsFixed(Connected(windowA, windowB, maxA, maxB), events, t);
    forall i | 0 <= i < |t.b.held| ensures CreditOf(t.b.held[i]) <= Credits(t.b.held) {
      DequeueLoads(t.b.held, i);
    }
  }

  /** Everything a sent has been received and counted. */
  predicate Drained(s: Endpoint, r: Endpoint) {
    && Loads(s.held) == 0 && Loads(s.out) == 0
    && |r.chan.inBuf| == 0 && |r.chan.errBuf| == 0 && Sizes(r.moving) == 0 && Sum(r.reading) == 0
    && Credits(r.held) == 0 && Credits(r.out) == 0
  }

  /** No deadlock: once all is drained at least nine tenths of the window are usable again, and a
      sender with no window left always has bytes or credit under way that will free some. */
  lemma NoDeadlock(windowA: nat, windowB: nat, maxA: int, maxB: int, events: seq<Event>, t: System)
    requires Runs(Connected(windowA, windowB, maxA, maxB), events, t) && Open(t.b.chan) && windowB > 0
    ensures Drained(t.a, t.b) ==> t.a.chan.outWindow >= windowB - windowB / 10 > 0
    ensures t.a.chan.outWindow == 0 ==> !Drained(t.a, t.b)
  {
    ConnectedGood(windowA, windowB, maxA, maxB);
    RunGood(Connected(windowA, windowB, maxA, maxB), events, t);
    WindowIsFixed(Connected(windowA, windowB, maxA, maxB), events, t);
  }

  /** In every reachable state in which b still knows the channel: what b's application has read,
      what b has buffered and what is under way is exactly what a's threads sent. */
  lemma NothingLost(windowA: nat, windowB: nat, maxA: int, maxB: int, events: seq<Event>, t: System)
    requires Runs(Connected(windowA, windowB, maxA, maxB), events, t) && !t.b.unlinked
    ensures Only(false, t.b.got + t.b.chan.inBuf) + Only(false, Flight(t.a.out)) == Only(false, t.a.sent)
    ensures multiset(t.b.got + t.b.chan.inBuf) + multiset(t.b.gotErr + t.b.chan.errBuf)
            + multiset(Concat(t.b.moving)) + multiset(Flight(t.a.out)) == multiset(t.a.sent)
    ensures !t.b.everCombined ==>
      t.b.gotErr + t.b.chan.errBuf + Only(true, Flight(t.a.out)) == Only(true, t.a.sent)
  {
    ConnectedGood(windowA, windowB, maxA, maxB);
    RunGood(Connected(windowA, windowB, maxA, maxB), events, t);
    hide Only, Flight, Concat, Balanced;
  }

  // ---------- packet sizes ----------

  /** No message carries more than n bytes. */
  ghost predicate Capped(q: seq<Message>, n: int) {
    forall i :: 0 <= i < |q| ==> |CellsOf(q[i])| <= n
  }

  ghost predicate SizesCapped(me: Endpoint, outMax: int) {
    me.chan.outMax == outMax > 64 && Capped(me.held, outMax - 64) && Capped(me.out, outMax - 64)
  }

  /** What a send is granted: as much as the size wanted, the window and the packet size all allow. */
  lemma GrantMeans(c: Chan<Cell>, size: nat)
    requires c.outMax > 64
    ensures var g := GrantOf(c, size);
      && (g.Granted? ==> g.size <= size && g.size <= c.outWindow && g.size <= c.outMax - 64)
      && (!c.closed && !c.eofSent && c.outWindow > 0 ==>
          g.Granted? && (g.size == size || g.size == c.outWindow || g.size == c.outMax - 64))
  {
  }

  lemma CappedPush(q: seq<Message>, m: Message, n: int)
    requires Capped(q, n) && |CellsOf(m)| <= n
    ensures Capped(q + [m], n)
  {
  }

  lemma CappedRemove(q: seq<Message>, i: nat, n: int)
    requires i < |q| && Capped(q, n)
    ensures Capped(RemoveAt(q, i), n)
  {
    forall j | 0 <= j < |RemoveAt(q, i)| ensures |CellsOf(RemoveAt(q, i)[j])| <= n {
      assert RemoveAt(q, i)[j] == q[if j < i then j else j + 1];
    }
  }

  /** Apart from a send, a side only ever adds messages without data. */
  lemma ClosingCapped(me: Endpoint, outMax: int)
    requires SizesCapped(me, outMax)
    ensures SizesCapped(Leaving(me), outMax) && SizesCapped(Ending(me), outMax)
  {
    var n := outMax - 64;
    hide CellsOf;
    NoCells();
    CappedPush(me.held, EofMsg, n);
    CappedPush(me.held, CloseMsg, n);
    CappedPush(me.held + [EofMsg], CloseMsg, n);
    var eof: seq<Message>, close: seq<Message>, none: seq<Message> := [EofMsg], [CloseMsg], [];
    assert me.held + (eof + close) == (me.held + eof) + close;
    assert me.held + none == me.held && none + close == close;
  }

  lemma NoCells()
    ensures CellsOf(EofMsg) == [] && CellsOf(CloseMsg) == [] && forall n: nat :: CellsOf(Adjust(n)) == []
  {
  }

  lemma LocalCapped(me: Endpoint, move: Move, outMax: int)
    requires SizesCapped(me, outMax)
    ensures Local(me, move).Some? ==> SizesCapped(Local(me, move).value, outMax)
  {
    var n := outMax - 64;
    match move
    case Send(bytes, err) =>
      GrantMeans(me.chan, |bytes|);
      var g := GrantOf(me.chan, |bytes|);
      if Sending(me, bytes, err).Some? {
        CappedPush(me.held, MessageFor(bytes[..g.size], err), n);
      }
    case Transmit(i) =>
      if i < |me.held| {
        CappedRemove(me.held, i, n);
        CappedPush(me.out, me.held[i], n);
      }
    case Ack(i) =>
      if i < |me.reading| {
        NoCells();
        hide CellsOf, Capped;
        CappedPush(me.held, Adjust(AckOf(me.chan, me.reading[i]).0), n);
      }
    case CloseLocal => ClosingCapped(me, outMax);
    case ShutdownWrite => ClosingCapped(me, outMax);
    case _ => hide Capped;
  }

  lemma HandleCapped(me: Endpoint, m: Message, outMax: int)
    requires SizesCapped(me, outMax)
    ensures SizesCapped(Handle(me, m), outMax)
  {
    ClosingCapped(me, outMax);
    hide Capped;
  }

  lemma StepCapped(s: System, move: Move, maxA: int, maxB: int)
    requires SizesCapped(s.a, maxA) && SizesCapped(s.b, maxB)
    ensures Step(s, move).Some? ==> SizesCapped(Step(s, move).value.a, maxA) && SizesCapped(Step(s, move).value.b, maxB)
  {
    if move.Deliver? {
      if s.b.out != [] {
        HandleCapped(s.a, s.b.out[0], maxA);
        assert Capped(s.b.out[1..], maxB - 64);
      }
    } else {
      LocalCapped(s.a, move, maxA);
    }
    hide Local, Handle, Capped;
  }

  lemma {:induction false} RunCapped(s: System, events: seq<Event>, t: System, maxA: int, maxB: int)
    requires SizesCapped(s.a, maxA) && SizesCapped(s.b, maxB) && Runs(s, events, t)
    ensures SizesCapped(t.a, maxA) && SizesCapped(t.b, maxB)
    decreases |events|
  {
    if events != [] {
      StepCapped(s, events[0].move, maxA, maxB);
      StepCapped(Flip(s), events[0].move, maxB, maxA);
      hide SizesCapped, Step;
      RunCapped(Advance(s, events[0]).value, events[1..], t, maxA, maxB);
    }
  }

  /** What the other side announced as its maximum packet size, brought between 4096 and 2^32 - 1. */
  function Announced(max: int): int {
    if max < 0x1000 then 0x1000 else if max > 0xFFFF_FFFF then 0xFFFF_FFFF else max
  }

  /** Section 5.2 of RFC 4254, in every reachable state: no message of either side, waiting or under way,
      carries more than the other's maximum less the 64 bytes kept for the packet around it. */
  lemma PacketsFit(windowA: nat, windowB: nat, maxA: int, maxB: int, events: seq<Event>, t: System)
    requires Runs(Connected(windowA, windowB, maxA, maxB), events, t)
    ensures forall m :: m in t.a.held + t.a.out ==> |CellsOf(m)| <= Announced(maxB) - 64
    ensures forall m :: m in t.b.held + t.b.out ==> |CellsOf(m)| <= Announced(maxA) - 64
  {
    RunCapped(Connected(windowA, windowB, maxA, maxB), events, t, Announced(maxB), Announced(maxA));
    hide CellsOf;
  }

  /** A side that may still send, with window left and something to send, gets to send at once: as many bytes
      as the size, the window and the packet size allow, at least one, and the window pays for them. */
  lemma SendProgresses(me: Endpoint, bytes: seq<Cell>, err: bool)
    requires me.chan.outMax > 64 && AllTagged(err, bytes) && bytes != []
    requires !me.chan.closed && !me.chan.eofSent && me.chan.outWindow > 0
    ensures Local(me, Send(bytes, err)).Some?
    ensures var next := Local(me, Send(bytes, err)).value;
      && |next.held| == |me.held| + 1 && next.held[..|me.held|] == me.held
      && var part := CellsOf(next.held[|me.held|]);
      && 1 <= |part| && part <= bytes && next.chan.outWindow == me.chan.outWindow - |part|
      && (|part| == |bytes| || |part| == me.chan.outWindow || |part| == me.chan.outMax - 64)
      && |part| <= me.chan.outMax - 64
  {
    GrantMeans(me.chan, |bytes|);
    hide GrantOf;
  }

  // ---------- closing ----------

  function Closes(q: seq<Message>): nat {
    if q == [] then 0 else (if q[0] == CloseMsg then 1 else 0) + Closes(q[1..])
  }

  lemma {:induction false} ClosesAppend(p: seq<Message>, q: seq<Message>)
    ensures Closes(p + q) == Closes(p) + Closes(q)
  {
    if p == [] {
      assert p + q == q;
    } else {
      assert (p + q)[1..] == p[1..] + q;
      ClosesAppend(p[1..], q);
    }
  }

  lemma ClosesPush(q: seq<Message>, m: Message)
    ensures Closes(q + [m]) == Closes(q) + if m == CloseMsg then 1 else 0
  {
    ClosesAppend(q, [m]);
    var none: seq<Message> := [];
    assert [m][1..] == none && Closes([m]) == (if m == CloseMsg then 1 else 0) + Closes(none);
  }

  lemma ClosesRemove(q: seq<Message>, i: nat)
    requires i < |q|
    ensures Closes(q) == Closes(RemoveAt(q, i)) + if q[i] == CloseMsg then 1 else 0
  {
    hide Closes;
    var a, b := q[..i], q[i + 1..];
    assert q == (a + [q[i]]) + b;
    ClosesPush(a, q[i]);
    ClosesAppend(a + [q[i]], b);
    ClosesAppend(a, b);
  }

  /** A side has sent one close message if it is closed and none if it is not, wherever the message is by now: held
      by a thread, under way, or taken by the peer. And a side that took its peer's has closed. */
  ghost predicate ClosedOnce(me: Endpoint, peer: Endpoint) {
    && me.chan.active && me.chan.outMax > 64
    && Closes(me.held) + Closes(me.out) + (if peer.unlinked then 1 else 0) == (if me.chan.closed then 1 else 0)
    && (me.unlinked ==> me.chan.closed)
  }

  lemma ClosingOnce(me: Endpoint)
    requires me.chan.active
    ensures Leaving(me).chan.closed && Closes(Leaving(me).held) == Closes(me.held) + if me.chan.closed then 0 else 1
    ensures Closes(Ending(me).held) == Closes(me.held)
  {
    var eof: seq<Message>, close: seq<Message>, none: seq<Message> := [EofMsg], [CloseMsg], [];
    ClosesPush(me.held, EofMsg);
    ClosesPush(me.held, CloseMsg);
    ClosesPush(me.held + eof, CloseMsg);
    hide Closes;
    assert me.held + (eof + close) == (me.held + eof) + close;
    assert me.held + none == me.held && none + close == close;
  }

  /** What ClosedOnce depends on is as before. */
  ghost predicate SameCloses(me: Endpoint, t: Endpoint) {
    && t.unlinked == me.unlinked && t.chan.active == me.chan.active && t.chan.outMax == me.chan.outMax
    && t.chan.closed == me.chan.closed && Closes(t.held) + Closes(t.out) == Closes(me.held) + Closes(me.out)
  }

  lemma TransmitCloses(me: Endpoint, i: nat)
    requires i < |me.held|
    ensures SameCloses(me, Queue(me, i))
  {
    ClosesRemove(me.held, i);
    ClosesPush(me.out, me.held[i]);
    hide Closes, RemoveAt, CellsOf;
  }

  lemma AckCloses(me: Endpoint, i: nat)
    requires i < |me.reading|
    ensures SameCloses(me, Acking(me, i))
  {
    AckKeepsFlags(me.chan, me.reading[i]);
    ClosesPush(me.held, Adjust(AckOf(me.chan, me.reading[i]).0));
    hide Closes, AckOf, RemoveAt;
  }

  lemma RecvCloses(me: Endpoint, err: bool, n: nat)
    ensures Receiving(me, err, n).Some? ==> SameCloses(me, Receiving(me, err, n).value)
  {
    hide Closes, TakeOf;
  }

  lemma CombineCloses(me: Endpoint, on: bool)
    ensures SameCloses(me, Combining(me, on))
  {
    hide Closes;
  }

  lemma MergeCloses(me: Endpoint, i: nat)
    requires i < |me.moving|
    ensures SameCloses(me, Merging(me, i))
  {
    hide Closes, RemoveAt;
  }

  lemma LocalClosedOnce(me: Endpoint, peer: Endpoint, move: Move)
    requires ClosedOnce(me, peer)
    ensures Local(me, move).Some? ==>
      ClosedOnce(Local(me, move).value, peer) && Local(me, move).value.unlinked == me.unlinked
  {
    hide Closes, Sending, Queue, Acking, Receiving, Combining, Merging, Ending, Leaving;
    match move
    case Send(bytes, err) =>
      if Sending(me, bytes, err).Some? {
        var m := SendHolds(me, bytes, err);
        ClosesPush(me.held, m);
      }
    case Transmit(i) =>
      if i < |me.held| {
        TransmitCloses(me, i);
      }
    case Ack(i) =>
      if i < |me.reading| {
        AckCloses(me, i);
      }
    case CloseLocal => ClosingOnce(me); LeavingKeeps(me);
    case ShutdownWrite => ClosingOnce(me); EndingKeeps(me);
    case Recv(err, n) => RecvCloses(me, err, n);
    case Combine(on) => CombineCloses(me, on);
    case FinishCombine(i) =>
      if i < |me.moving| {
        MergeCloses(me, i);
      }
    case _ =>
  }

  lemma EndingKeeps(me: Endpoint)
    ensures var t := Ending(me); t == me.(chan := me.chan.(eofSent := true), held := t.held)
  {
  }

  lemma SendHolds(me: Endpoint, bytes: seq<Cell>, err: bool) returns (m: Message)
    requires me.chan.outMax > 64 && Sending(me, bytes, err).Some?
    ensures var t := Sending(me, bytes, err).value;
      m != CloseMsg && t == me.(chan := me.chan.(outWindow := t.chan.outWindow), held := me.held + [m])
  {
    m := MessageFor(bytes[..GrantOf(me.chan, |bytes|).size], err);
  }

  lemma HandleMeans(me: Endpoint, m: Message)
    ensures var h := Handle(me, m);
      if me.unlinked then h == me
      else if m == CloseMsg then h == Leaving(me).(unlinked := true)
      else h == me.(chan := h.chan) && h.chan.active == me.chan.active && h.chan.closed == me.chan.closed && h.chan.outMax == me.chan.outMax
  {
    hide Closing;
  }

  lemma AckKeepsFlags(c: Chan<Cell>, n: nat)
    ensures AckOf(c, n).1 == c.(sofar := AckOf(c, n).1.sofar)
  {
  }

  lemma DeliverClosedOnce(me: Endpoint, peer: Endpoint)
    requires ClosedOnce(me, peer) && ClosedOnce(peer, me) && peer.out != []
    ensures var me', peer' := Handle(me, peer.out[0]), peer.(out := peer.out[1..]);
      ClosedOnce(me', peer') && ClosedOnce(peer', me')
  {
    hide Handle, Leaving, Ending;
    HandleMeans(me, peer.out[0]);
    ClosingOnce(me);
    LeavingKeeps(me);
    assert Closes(peer.out) == (if peer.out[0] == CloseMsg then 1 else 0) + Closes(peer.out[1..]);
    hide Closes;
  }

  lemma LeavingKeeps(me: Endpoint)
    ensures var t := Leaving(me); t == me.(chan := t.chan, held := t.held) && t.chan.active == me.chan.active && t.chan.outMax == me.chan.outMax
  {
  }

  lemma StepClosedOnce(s: System, move: Move)
    requires ClosedOnce(s.a, s.b) && ClosedOnce(s.b, s.a)
    ensures Step(s, move).Some? ==>
      ClosedOnce(Step(s, move).value.a, Step(s, move).value.b) && ClosedOnce(Step(s, move).value.b, Step(s, move).value.a)
  {
    if move.Deliver? {
      if s.b.out != [] {
        DeliverClosedOnce(s.a, s.b);
      }
    } else {
      LocalClosedOnce(s.a, s.b, move);
    }
    hide Local, Handle, Closes;
  }

  lemma {:induction false} RunClosedOnce(s: System, events: seq<Event>, t: System)
    requires ClosedOnce(s.a, s.b) && ClosedOnce(s.b, s.a) && Runs(s, events, t)
    ensures ClosedOnce(t.a, t.b) && ClosedOnce(t.b, t.a)
    decreases |events|
  {
    if events != [] {
      StepClosedOnce(s, events[0].move);
      StepClosedOnce(Flip(s), events[0].move);
      hide ClosedOnce, Step;
      RunClosedOnce(Advance(s, events[0]).value, events[1..], t);
    }
  }

  /** Section 5.3 of RFC 4254, in every reachable state: each side sends exactly one close message, when it closes, and
      closes at the latest when it takes the peer's; so both have closed once either no longer knows the channel. */
  lemma CloseHandshake(windowA: nat, windowB: nat, maxA: int, maxB: int, events: seq<Event>, t: System)
    requires Runs(Connected(windowA, windowB, maxA, maxB), events, t)
    ensures Closes(t.a.held + t.a.out) + (if t.b.unlinked then 1 else 0) == if t.a.chan.closed then 1 else 0
    ensures Closes(t.b.held + t.b.out) + (if t.a.unlinked then 1 else 0) == if t.b.chan.closed then 1 else 0
    ensures t.a.unlinked || t.b.unlinked ==> t.a.chan.closed && t.b.chan.closed
  {
    RunClosedOnce(Connected(windowA, windowB, maxA, maxB), events, t);
    ClosesAppend(t.a.held, t.a.out);
    ClosesAppend(t.b.held, t.b.out);
    hide Closes;
  }

  // ---------- data after EOF ----------

  predicate HoldsData(q: seq<Message>) {
    exists i :: 0 <= i < |q| && (q[i].Data? || q[i].ExtData?)
  }

  /** Bytes are granted under the lock but sent after it is released, so a thread that has been
      granted bytes can send them after another thread's EOF: RFC 4254 section 5.3 forbids it. */
  lemma DataAfterEof()
    ensures var s, m := Fresh(100, 100, 0x8000), Data([Cell(false, 7)]);
      Local(s, Send([Cell(false, 7)], false)).Some?
      && var t1 := Local(s, Send([Cell(false, 7)], false)).value;
      var t2 := Ending(t1);
      |t2.held| == 2
      && Queue(Queue(t2, 1), 0).out == [EofMsg, m]
  {
    var s, m := Fresh(100, 100, 0x8000), Data([Cell(false, 7)]);
    OneByteGranted();
    var t1 := Local(s, Send([Cell(false, 7)], false)).value;
    hide Local, Fresh;
    var t2 := Ending(t1);
    assert t2.held == [m, EofMsg] && t2.out == [];
    TwoHandedOver(t2, m, EofMsg);
  }

  lemma OneByteGranted()
    ensures var r := Local(Fresh(100, 100, 0x8000), Send([Cell(false, 7)], false));
      r.Some? && r.value.held == [Data([Cell(false, 7)])] && r.value.out == [] && !r.value.chan.eofSent
  {
    assert [Cell(false, 7)][..1] == [Cell(false, 7)];
  }

  lemma TwoHandedOver(t: Endpoint, m: Message, n: Message)
    requires t.held == [m, n] && t.out == []
    ensures Queue(Queue(t, 1), 0).out == [n, m]
  {
    var u := Queue(t, 1);
    assert u.held == [m] && u.out == [n];
  }

  /** That needs such a thread: once eofSent is set and no thread holds granted bytes, no
      more data is ever queued by this side. */
  lemma EofIsFinal(me: Endpoint, move: Move)
    requires me.chan.outMax > 64 && me.chan.eofSent && !HoldsData(me.held)
    ensures var r := Local(me, move);
      r.Some? ==> r.value.chan.eofSent && !HoldsData(r.value.held) && r.value.sent == me.sent
  {
    hide HoldsData, Sending, Receiving, Acking;
    match move
    case Send(bytes, err) => SendingFrame(me, bytes, err);
    case Recv(err, n) => ReceivingFrame(me, err, n);
    case Transmit(i) => if i < |me.held| { QueueNoData(me, i); }
    case Ack(i) =>
      if i < |me.reading| {
        AckingFrame(me, i);
        var q := Acking(me, i).held;
        if q != me.held {
          var n :| q == me.held + [Adjust(n)];
          HeldNoData(me.held, Adjust(n));
        }
      }
    case CloseLocal => EofOnlyClose(me);
    case ShutdownWrite => assert me.held + [] == me.held;
    case _ =>
  }

  lemma EofOnlyClose(me: Endpoint)
    requires me.chan.eofSent && !HoldsData(me.held)
    ensures !HoldsData(Leaving(me).held) && Leaving(me).sent == me.sent && Leaving(me).chan.eofSent
  {
    var close: seq<Message> := [CloseMsg];
    assert [] + close == close && me.held + [] == me.held;
    HeldNoData(me.held, CloseMsg);
  }

  lemma HeldNoData(q: seq<Message>, m: Message)
    requires !HoldsData(q) && CellsOf(m) == [] && !m.Data? && !m.ExtData?
    ensures !HoldsData(q + [m])
  {
  }

  lemma QueueNoData(me: Endpoint, i: nat)
    requires i < |me.held| && !HoldsData(me.held)
    ensures !HoldsData(Queue(me, i).held) && Queue(me, i).sent == me.sent
  {
    assert me.sent + [] == me.sent;
    forall j | 0 <= j < |Queue(me, i).held|
      ensures !Queue(me, i).held[j].Data? && !Queue(me, i).held[j].ExtData?
    {
      RemovedFrom(me.held, i, j);
    }
  }

  /** And with such a thread it does happen: what is held can be handed over at any time. */
  lemma HeldDataFollowsEof(me: Endpoint)
    requires me.chan.outMax > 64 && HoldsData(me.held)
    ensures exists i :: 0 <= i < |me.held| && (me.held[i].Data? || me.held[i].ExtData?)
                        && Local(me, Transmit(i)).Some? && Local(me, Transmit(i)).value.out == me.out + [me.held[i]]
  {
    var i :| 0 <= i < |me.held| && (me.held[i].Data? || me.held[i].ExtData?);
    assert Local(me, Transmit(i)).value.out == me.out + [me.held[i]];
  }

  /** In some continuation of s, side a hands the transport a message with data. */
  ghost predicate SendsDataLater(s: System) {
    exists events, t :: Runs(s, events, t) && TransmitsData(t)
  }

  ghost predicate TransmitsData(t: System) {
    t.a.chan.outMax > 64 && t.b.chan.outMax > 64
    && exists i: nat :: i < |t.a.held| && (t.a.held[i].Data? || t.a.held[i].ExtData?)
         && Advance(t, Event(false, Transmit(i))).Some?
         && Advance(t, Event(false, Transmit(i))).value.a.out == t.a.out + [t.a.held[i]]
  }

  lemma EofStays(s: System, e: Event)
    requires s.a.chan.outMax > 64 && s.b.chan.outMax > 64
    requires s.a.chan.eofSent && !HoldsData(s.a.held) && Advance(s, e).Some?
    ensures var t := Advance(s, e).value; t.a.chan.eofSent && !HoldsData(t.a.held)
  {
    if e.flipped {
      hide Local, Handle, HoldsData;
    } else if e.move.Deliver? {
      if s.b.out[0].CloseMsg? {
        EofOnlyClose(s.a);
      }
      hide HoldsData, Closing, Local;
    } else {
      hide Local, Handle, HoldsData;
      EofIsFinal(s.a, e.move);
    }
  }

  lemma {:induction false} EofStaysFinal(s: System, events: seq<Event>, t: System)
    requires s.a.chan.eofSent && !HoldsData(s.a.held) && Runs(s, events, t)
    ensures t.a.chan.eofSent && !HoldsData(t.a.held)
    decreases |events|
  {
    if events != [] {
      EofStays(s, events[0]);
      hide Advance, HoldsData;
      EofStaysFinal(Advance(s, events[0]).value, events[1..], t);
    }
  }

  /** Over every continuation, with any moves of either side: once our EOF is set, data is sent after
      it in some run if and only if some thread holds granted bytes at that moment. */
  lemma DataAfterEofIff(s: System)
    requires s.a.chan.outMax > 64 && s.b.chan.outMax > 64 && s.a.chan.eofSent
    ensures SendsDataLater(s) <==> HoldsData(s.a.held)
  {
    if HoldsData(s.a.held) {
      HeldDataFollowsEof(s.a);
      assert Runs(s, [], s);
      assert TransmitsData(s);
    }
    if SendsDataLater(s) && !HoldsData(s.a.held) {
      var events, t :| Runs(s, events, t) && TransmitsData(t);
      EofStaysFinal(s, events, t);
      assert false;
    }
  }

  // ---------- extended data of an unknown type ----------

  /** It is dropped without being counted: the receiver is as it was, and the account of the direction falls
      short by as many bytes. */
  lemma UnknownTypeIsLost(s: System, code: nat, bytes: seq<Cell>)
    requires s.b.out != [] && s.b.out[0] == ExtData(code, bytes) && code != 1
    requires s.a.chan.outMax > 64
    ensures Step(s, Deliver).Some?
    ensures var t := Step(s, Deliver).value;
      t.a == s.a && t.b == s.b.(out := s.b.out[1..]) && Account(t.b, t.a) == Account(s.b, s.a) - |bytes|
  {
  }
}
