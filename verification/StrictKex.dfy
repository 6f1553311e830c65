/** paramiko/transport.py: the inbound dispatch of run(), and strict key exchange. */
module StrictKex {

  const SEQ_MAX := 0x1_0000_0000

  const MSG_DISCONNECT := 1
  const MSG_IGNORE := 2
  const MSG_DEBUG := 4
  const MSG_KEXINIT := 20
  const MSG_NEWKEYS := 21

  datatype Engine = NoEngine | Group | GroupExchange

  /** A packet as far as the dispatch can tell. For a KEXINIT: whether its last kex-strict marker, if
      any, is the right one, and the engine that negotiation leads to. survives says whether the
      handler, if one is called, returns without raising or hanging up. */
  datatype Packet = Packet(ptype: int, marker: MarkerSeen, engine: Engine, survives: bool)

  datatype MarkerSeen = NoMarker | RightMarker | WrongMarker

  datatype State = State(serverMode: bool, advertise: bool, active: bool, strict: bool, done: bool,
                         seqno: int, expected: set<int>, engine: Engine, haveK: bool,
                         trace: seq<(int, int)>)

  function Initial(serverMode: bool, advertise: bool): State {
    State(serverMode, advertise, true, false, false, 0, {MSG_KEXINIT}, NoEngine, false, [])
  }

  function Raise(s: State): State {
    s.(active := false)
  }

  // ---------- key exchange engines ----------

  function StartKex(engine: Engine, serverMode: bool): set<int> {
    match engine
    case NoEngine => {}
    case Group => if serverMode then {30} else {31}
    case GroupExchange => if serverMode then {34, 30} else {31}
  }

  /** parse_next: the packets expected after the given one, or None where the engine raises. */
  function ParseNext(engine: Engine, serverMode: bool, ptype: int): set<int> {
    match engine
    case NoEngine => {}
    case Group => if ptype == (if serverMode then 30 else 31) then {MSG_NEWKEYS} else {}
    case GroupExchange =>
      if ptype == 34 || ptype == 30 then {32}
      else if ptype == 31 then {33}
      else if ptype == 32 || ptype == 33 then {MSG_NEWKEYS}
      else {}
  }

  // ---------- one packet ----------

  function ParseKexInit(s: State, seqno: int, p: Packet): State {
    var strict := if p.marker.NoMarker? then s.strict else p.marker.RightMarker? && s.advertise;
    var t := s.(strict := strict);
    if strict && !s.done && seqno != 0 then Raise(t)
    else if p.engine.NoEngine? || !p.survives then Raise(t)
    else t.(engine := p.engine, expected := StartKex(p.engine, s.serverMode))
  }

  function ParseNewkeys(s: State): State {
    if !s.haveK then Raise(s)
    else s.(haveK := false, engine := NoEngine, done := true, seqno := if s.strict then 0 else s.seqno)
  }

  function Dispatch(s: State, seqno: int, p: Packet): State {
    if p.ptype == MSG_IGNORE || p.ptype == MSG_DEBUG then if s.strict && !s.done then Raise(s) else s
    else if p.ptype == MSG_DISCONNECT then Raise(s)
    else if s.expected != {} && p.ptype !in s.expected then Raise(s)
    else
      var t := s.(expected := {});
      if s.expected != {} && 30 <= p.ptype <= 41 then
        var next := ParseNext(s.engine, s.serverMode, p.ptype);
        if next == {} || !p.survives then Raise(t) else t.(expected := next, haveK := s.haveK || next == {MSG_NEWKEYS})
      else if p.ptype == MSG_KEXINIT then ParseKexInit(t, seqno, p)
      else if p.ptype == MSG_NEWKEYS then ParseNewkeys(t)
      else if p.survives then t
      else Raise(t)
  }

  /** read_message and the loop body: the sequence number may not roll over before the first exchange is done. */
  function Handle(s: State, p: Packet): State {
    var next := (s.seqno + 1) % SEQ_MAX;
    if next == 0 && !s.done then Raise(s)
    else Dispatch(s.(seqno := next, trace := s.trace + [(s.seqno, p.ptype)]), s.seqno, p)
  }

  function RunAll(s: State, packets: seq<Packet>): State {
    if packets == [] then s
    else
      var before := RunAll(s, packets[..|packets| - 1]);
      if before.active then Handle(before, packets[|packets| - 1]) else before
  }

  // ---------- the loop ----------

  class Transport {
    const serverMode: bool
    const advertiseStrictKex: bool
    var active: bool
    var agreedOnStrictKex: bool
    var initialKexDone: bool
    var sequenceNumberIn: int
    var expectedPacket: set<int>
    var kexEngine: Engine
    var haveK: bool
    ghost var trace: seq<(int, int)>

    constructor (serverMode: bool, advertiseStrictKex: bool)
      ensures View() == Initial(serverMode, advertiseStrictKex)
    {
      this.serverMode, this.advertiseStrictKex := serverMode, advertiseStrictKex;
      active, agreedOnStrictKex, initialKexDone, sequenceNumberIn := true, false, false, 0;
      expectedPacket, kexEngine, haveK, trace := {MSG_KEXINIT}, NoEngine, false, [];
    }

    ghost function View(): State
      reads this
    {
      State(serverMode, advertiseStrictKex, active, agreedOnStrictKex, initialKexDone, sequenceNumberIn,
            expectedPacket, kexEngine, haveK, trace)
    }

    /** One pass of the loop in run(). */
    method HandlePacket(p: Packet)
      modifies this
      ensures View() == Handle(old(View()), p)
    {
      hide Dispatch;
      var seqno := sequenceNumberIn;
      var nextSeq := (sequenceNumberIn + 1) % SEQ_MAX;
      if nextSeq == 0 && !initialKexDone {
        active := false;
        return;
      }
      sequenceNumberIn := nextSeq;
      trace := trace + [(seqno, p.ptype)];
      DispatchPacket(seqno, p);
    }

    method DispatchPacket(seqno: int, p: Packet)
      modifies this
      ensures View() == Dispatch(old(View()), seqno, p)
    {
      hide ParseNext, ParseKexInit, ParseNewkeys;
      var ptype := p.ptype;
      if ptype == MSG_IGNORE || ptype == MSG_DEBUG {
        EnforceStrictKex();
        return;
      }
      if ptype == MSG_DISCONNECT {
        active := false;
        return;
      }
      if |expectedPacket| > 0 {
        if ptype !in expectedPacket {
          active := false;
          return;
        }
        expectedPacket := {};
        if ptype >= 30 && ptype <= 41 {
          ParseKexMessage(p);
          return;
        }
      }
      CallHandler(seqno, p);
    }

    /** The handler of a packet that is not one of the key exchange's own. */
    method CallHandler(seqno: int, p: Packet)
      modifies this
      ensures View() == if p.ptype == MSG_KEXINIT then ParseKexInit(old(View()), seqno, p)
                        else if p.ptype == MSG_NEWKEYS then ParseNewkeys(old(View()))
                        else if p.survives then old(View()) else Raise(old(View()))
    {
      hide ParseKexInit, ParseNewkeys;
      var ptype := p.ptype;
      if ptype == MSG_KEXINIT {
        NegotiateKeys(seqno, p);
      } else if ptype == MSG_NEWKEYS {
        HandleNewkeys();
      } else if !p.survives {
        active := false;
      }
    }

    method EnforceStrictKex()
      modifies this`active
      ensures active == (old(active) && !(agreedOnStrictKex && !initialKexDone))
    {
      if agreedOnStrictKex && !initialKexDone {
        active := false;
      }
    }

    method ParseKexMessage(p: Packet)
      modifies this`active, this`expectedPacket, this`haveK
      ensures var next := ParseNext(kexEngine, serverMode, p.ptype);
        View() == if next == {} || !p.survives then Raise(old(View()))
                  else old(View()).(expected := next, haveK := old(haveK) || next == {MSG_NEWKEYS})
    {
      var next := ParseNext(kexEngine, serverMode, p.ptype);
      if next == {} || !p.survives {
        active := false;
        return;
      }
      expectedPacket := next;
      haveK := haveK || next == {MSG_NEWKEYS};
    }

    method NegotiateKeys(seqno: int, p: Packet)
      modifies this`active, this`agreedOnStrictKex, this`kexEngine, this`expectedPacket
      ensures View() == ParseKexInit(old(View()), seqno, p)
      ensures agreedOnStrictKex ==
        if p.marker.NoMarker? then old(agreedOnStrictKex) else p.marker.RightMarker? && advertiseStrictKex
      ensures old(active) && active ==> !(agreedOnStrictKex && !initialKexDone && seqno != 0)
    {
      hide StartKex;
      if !p.marker.NoMarker? {
        agreedOnStrictKex := p.marker.RightMarker? && advertiseStrictKex;
      }
      if agreedOnStrictKex && !initialKexDone && seqno != 0 {
        active := false;
        return;
      }
      if p.engine.NoEngine? || !p.survives {
        active := false;
        return;
      }
      kexEngine := p.engine;
      expectedPacket := StartKex(kexEngine, serverMode);
    }

    method HandleNewkeys()
      modifies this`active, this`sequenceNumberIn, this`haveK, this`kexEngine, this`initialKexDone
      ensures View() == ParseNewkeys(old(View()))
      ensures old(!haveK) ==> !active && initialKexDone == old(initialKexDone)
      ensures old(haveK) ==> active == old(active) && initialKexDone && !haveK
      ensures sequenceNumberIn == if old(haveK) && agreedOnStrictKex then 0 else old(sequenceNumberIn)
    {
      if !haveK {
        active := false;
        return;
      }
      if agreedOnStrictKex {
        sequenceNumberIn := 0;
      }
      haveK, kexEngine := false, NoEngine;
      if !initialKexDone {
        initialKexDone := true;
      }
    }
  }

  // ---------- whole runs ----------

  predicate Passing(ptype: int) {
    ptype == MSG_IGNORE || ptype == MSG_DEBUG
  }

  /** The packet types received, without the ones that a lax exchange may interleave. */
  function Essential(trace: seq<(int, int)>): (r: seq<int>)
    ensures |r| <= |trace|
  {
    if trace == [] then []
    else Essential(trace[..|trace| - 1]) + if Passing(trace[|trace| - 1].1) then [] else [trace[|trace| - 1].1]
  }

  function Types(trace: seq<(int, int)>): seq<int> {
    seq(|trace|, i requires 0 <= i < |trace| => trace[i].1)
  }

  /** What may follow a packet of the exchange. */
  function ExpectedAfter(engine: Engine, serverMode: bool, last: int): set<int> {
    if last == MSG_KEXINIT then StartKex(engine, serverMode) else ParseNext(engine, serverMode, last)
  }

  ghost predicate Path(engine: Engine, serverMode: bool, e: seq<int>) {
    && e != [] && e[0] == MSG_KEXINIT
    && forall i :: 1 <= i < |e| ==> e[i] in ExpectedAfter(engine, serverMode, e[i - 1])
  }

  /** RFC 4253 sections 7 and 8 and RFC 4419 section 3: the packets of one exchange, as its receiver
      sees them. A group-exchange server takes the old request as well as the new one. */
  function Plan(engine: Engine, serverMode: bool, request: int): seq<int> {
    match engine
    case NoEngine => []
    case Group => [MSG_KEXINIT, if serverMode then 30 else 31, MSG_NEWKEYS]
    case GroupExchange =>
      if serverMode then [MSG_KEXINIT, if request == 34 then 34 else 30, 32, MSG_NEWKEYS]
      else [MSG_KEXINIT, 31, 33, MSG_NEWKEYS]
  }

  lemma PathIsPlan(engine: Engine, serverMode: bool, e: seq<int>)
    requires Path(engine, serverMode, e) && e[|e| - 1] == MSG_NEWKEYS && !engine.NoEngine?
    ensures e == Plan(engine, serverMode, e[1])
  {
    var n := |e|;
    assert e[1] in ExpectedAfter(engine, serverMode, e[0]);
    assert n > 2 ==> e[2] in ExpectedAfter(engine, serverMode, e[1]);
    assert n > 3 ==> e[3] in ExpectedAfter(engine, serverMode, e[2]);
    assert n > 4 ==> e[4] in ExpectedAfter(engine, serverMode, e[3]);
  }

  /** The invariant of an unfinished first exchange: what was received follows the engine's order,
      what is expected is what may come next, and sequence numbers count packets from zero. */
  ghost predicate Underway(s: State) {
    var e := Essential(s.trace);
    && s.seqno == |s.trace| < SEQ_MAX
    && (forall i :: 0 <= i < |s.trace| ==> s.trace[i].0 == i)
    && (s.strict ==> e == Types(s.trace))
    && (s.engine.NoEngine? ==> e == [] && s.expected == {MSG_KEXINIT} && !s.haveK && !s.strict)
    && (!s.engine.NoEngine? ==> OnPath(s, e))
  }

  ghost predicate OnPath(s: State, e: seq<int>) {
    && Path(s.engine, s.serverMode, e)
    && s.expected == ExpectedAfter(s.engine, s.serverMode, e[|e| - 1]) && s.expected != {}
    && (s.haveK <==> s.expected == {MSG_NEWKEYS})
  }

  lemma TracePush(trace: seq<(int, int)>, x: (int, int))
    ensures Essential(trace + [x]) == if Passing(x.1) then Essential(trace) else Essential(trace) + [x.1]
    ensures Types(trace + [x]) == Types(trace) + [x.1]
  {
    assert (trace + [x])[..|trace|] == trace;
  }

  lemma PathPush(engine: Engine, serverMode: bool, e: seq<int>, x: int)
    requires Path(engine, serverMode, e) && x in ExpectedAfter(engine, serverMode, e[|e| - 1])
    ensures Path(engine, serverMode, e + [x])
  {
  }

  /** Nothing of an exchange is a packet the dispatch lets pass, and only KEXINIT leads back to itself. */
  lemma ExpectedTypes(engine: Engine, serverMode: bool, last: int, x: int)
    requires x in ExpectedAfter(engine, serverMode, last)
    ensures x == MSG_NEWKEYS || 30 <= x <= 34
    ensures x != MSG_NEWKEYS && !engine.NoEngine? ==> ParseNext(engine, serverMode, x) != {}
    ensures x != MSG_NEWKEYS ==> ExpectedAfter(engine, serverMode, last) != {MSG_NEWKEYS}
  {
  }

  /** Reading a packet: the count and the trace grow together, or the connection ends. */
  function Read(s: State, p: Packet): State {
    s.(seqno := s.seqno + 1, trace := s.trace + [(s.seqno, p.ptype)])
  }

  lemma HandleIs(s: State, p: Packet)
    requires Underway(s) && !s.done
    ensures Handle(s, p) == if s.seqno + 1 == SEQ_MAX then Raise(s) else Dispatch(Read(s, p), s.seqno, p)
  {
    hide Dispatch, OnPath, Essential;
  }

  lemma TraceCounts(s: State, p: Packet)
    requires forall i :: 0 <= i < |s.trace| ==> s.trace[i].0 == i
    requires s.seqno == |s.trace|
    ensures var l := Read(s, p).trace; forall i :: 0 <= i < |l| ==> l[i].0 == i
  {
  }

  lemma PassingIs(u: State, seqno: int, p: Packet)
    requires Passing(p.ptype)
    ensures Dispatch(u, seqno, p) == if u.strict && !u.done then Raise(u) else u
  {
  }

  lemma PassingUnderway(s: State, p: Packet)
    requires Underway(s) && s.active && !s.done && Passing(p.ptype) && s.seqno + 1 < SEQ_MAX
    ensures var t := Dispatch(Read(s, p), s.seqno, p); t.active ==> Underway(t) && !t.done
  {
    TracePush(s.trace, (s.seqno, p.ptype));
    TraceCounts(s, p);
    PassingIs(Read(s, p), s.seqno, p);
    hide Essential, Types, Path, ExpectedAfter, Dispatch;
  }

  lemma FirstKexInit(u: State, seqno: int, p: Packet)
    requires u.active && !u.done && u.expected == {MSG_KEXINIT} && p.ptype == MSG_KEXINIT
    ensures var t := Dispatch(u, seqno, p);
      t.active ==>
        && !t.engine.NoEngine? && t.expected == StartKex(t.engine, u.serverMode) && t.serverMode == u.serverMode
        && t.seqno == u.seqno && t.trace == u.trace && t.haveK == u.haveK && !t.done
        && (t.strict ==> seqno == 0)
  {
    hide StartKex;
  }

  lemma KexInitUnderway(s: State, p: Packet)
    requires Underway(s) && s.active && !s.done && s.engine.NoEngine? && s.seqno + 1 < SEQ_MAX && p.ptype == MSG_KEXINIT
    ensures var t := Dispatch(Read(s, p), s.seqno, p); t.active ==> Underway(t) && !t.done
  {
    var l := Read(s, p).trace;
    TracePush(s.trace, (s.seqno, p.ptype));
    TraceCounts(s, p);
    FirstKexInit(Read(s, p), s.seqno, p);
    assert Essential(l) == [MSG_KEXINIT];
    if s.seqno == 0 {
      assert Types(l) == [MSG_KEXINIT];
    }
    var t := Dispatch(Read(s, p), s.seqno, p);
    hide Essential, Types, Dispatch;
    if t.active {
      OneOnPath(t);
    }
    hide OnPath, Passing;
  }

  lemma OneOnPath(t: State)
    requires !t.engine.NoEngine? && t.expected == StartKex(t.engine, t.serverMode) && !t.haveK
    ensures OnPath(t, [MSG_KEXINIT])
  {
    assert t.expected != {MSG_NEWKEYS} && t.expected != {};
  }

  lemma KexMessageUnderway(s: State, p: Packet)
    requires Underway(s) && s.active && !s.done && !s.engine.NoEngine? && s.seqno + 1 < SEQ_MAX
    requires p.ptype != MSG_NEWKEYS && p.ptype in s.expected
    ensures var t := Dispatch(Read(s, p), s.seqno, p); t.active ==> Underway(t) && !t.done
  {
    var e := Essential(s.trace);
    TracePush(s.trace, (s.seqno, p.ptype));
    TraceCounts(s, p);
    ExpectedTypes(s.engine, s.serverMode, e[|e| - 1], p.ptype);
    PathPush(s.engine, s.serverMode, e, p.ptype);
    assert ExpectedAfter(s.engine, s.serverMode, p.ptype) == ParseNext(s.engine, s.serverMode, p.ptype);
    KexMessageIs(Read(s, p), s.seqno, p);
    hide Essential, Types, Path, ExpectedAfter, ParseNext, Dispatch;
    var t := Dispatch(Read(s, p), s.seqno, p);
    if t.active {
      assert t.trace == Read(s, p).trace && t.engine == s.engine && t.strict == s.strict;
      assert OnPath(t, e + [p.ptype]);
    }
  }

  lemma KexMessageIs(u: State, seqno: int, p: Packet)
    requires p.ptype in u.expected && 30 <= p.ptype <= 34
    ensures var next := ParseNext(u.engine, u.serverMode, p.ptype);
      Dispatch(u, seqno, p)
      == if next == {} || !p.survives then Raise(u.(expected := {}))
         else u.(expected := next, haveK := u.haveK || next == {MSG_NEWKEYS})
  {
    hide ParseNext, ParseKexInit, ParseNewkeys;
  }

  /** NEWKEYS in its turn ends the exchange. */
  ghost predicate Finishes(s: State, p: Packet, t: State) {
    && p.ptype == MSG_NEWKEYS && !s.engine.NoEngine? && t.strict == s.strict
    && t.trace == Read(s, p).trace && Path(s.engine, s.serverMode, Essential(t.trace))
    && Essential(t.trace) == Essential(s.trace) + [MSG_NEWKEYS]
    && (s.strict ==> Essential(t.trace) == Types(t.trace))
    && t.seqno == (if t.strict then 0 else |t.trace|)
  }

  lemma NewkeysFinishes(s: State, p: Packet)
    requires Underway(s) && s.active && !s.done && !s.engine.NoEngine? && s.seqno + 1 < SEQ_MAX
    requires p.ptype == MSG_NEWKEYS && p.ptype in s.expected
    ensures var t := Dispatch(Read(s, p), s.seqno, p); t.active ==> t.done && Finishes(s, p, t)
  {
    var e := Essential(s.trace);
    TracePush(s.trace, (s.seqno, p.ptype));
    PathPush(s.engine, s.serverMode, e, p.ptype);
    hide Essential, Types, Path, ExpectedAfter, ParseNext, ParseKexInit;
  }

  /** A packet that is not expected, unless it may pass, ends the run. */
  lemma OutOfTurn(s: State, p: Packet)
    requires s.active && s.expected != {} && p.ptype !in s.expected && !Passing(p.ptype)
    ensures !Dispatch(Read(s, p), s.seqno, p).active
  {
  }

  lemma StepUnderway(s: State, p: Packet)
    requires Underway(s) && s.active && !s.done
    ensures var t := Handle(s, p);
      t.active ==> if t.done then Finishes(s, p, t) else Underway(t)
  {
    HandleIs(s, p);
    if s.seqno + 1 < SEQ_MAX {
      if Passing(p.ptype) {
        PassingUnderway(s, p);
      } else if p.ptype !in s.expected {
        assert s.expected != {} by {
          hide Path, Essential, Types;
        }
        OutOfTurn(s, p);
      } else if s.engine.NoEngine? {
        KexInitUnderway(s, p);
      } else if p.ptype == MSG_NEWKEYS {
        NewkeysFinishes(s, p);
      } else {
        KexMessageUnderway(s, p);
      }
    }
    hide *;
  }

  lemma {:induction false} RunUnderway(serverMode: bool, advertise: bool, packets: seq<Packet>)
    ensures var s := RunAll(Initial(serverMode, advertise), packets); s.active && !s.done ==> Underway(s)
    ensures RunAll(Initial(serverMode, advertise), packets).serverMode == serverMode
  {
    if packets != [] {
      var before, p := packets[..|packets| - 1], packets[|packets| - 1];
      RunUnderway(serverMode, advertise, before);
      var b := RunAll(Initial(serverMode, advertise), before);
      assert RunAll(Initial(serverMode, advertise), packets) == if b.active then Handle(b, p) else b by {
        hide Handle;
      }
      hide Underway, RunAll;
      StaysDone(b, p);
      hide Handle;
      if b.active && !b.done {
        StepUnderway(b, p);
      }
    }
  }

  lemma StaysDone(s: State, p: Packet)
    ensures s.done ==> Handle(s, p).done
    ensures Handle(s, p).serverMode == s.serverMode
  {
  }

  /** Strict key exchange over any run: if the initial exchange ends in strict mode, then every packet
      received up to there is one of the exchange, in order, the KEXINIT first and with sequence
      number 0, and nothing before or between. */
  lemma StrictRunIsExactlyThePlan(serverMode: bool, advertise: bool, packets: seq<Packet>, p: Packet)
    requires var b := RunAll(Initial(serverMode, advertise), packets); b.active && !b.done
    requires var t := Handle(RunAll(Initial(serverMode, advertise), packets), p); t.active && t.done && t.strict
    ensures var b := RunAll(Initial(serverMode, advertise), packets);
      var t := Handle(b, p);
      && |t.trace| >= 3
      && Types(t.trace) == Plan(b.engine, serverMode, t.trace[1].1)
      && forall i :: 0 <= i < |t.trace| ==> t.trace[i].0 == i
  {
    RunUnderway(serverMode, advertise, packets);
    var b := RunAll(Initial(serverMode, advertise), packets);
    StepUnderway(b, p);
    var t := Handle(b, p);
    TraceCounts(b, p);
    assert Essential(t.trace) == Types(t.trace);
    PathIsPlan(b.engine, serverMode, Types(t.trace));
    hide Handle, RunAll, Essential, Path;
  }

  /** Without strict mode the same holds of the packets that are not IGNORE or DEBUG. */
  lemma LaxRunFollowsThePlan(serverMode: bool, advertise: bool, packets: seq<Packet>, p: Packet)
    requires var b := RunAll(Initial(serverMode, advertise), packets); b.active && !b.done
    requires var t := Handle(RunAll(Initial(serverMode, advertise), packets), p); t.active && t.done
    ensures var b := RunAll(Initial(serverMode, advertise), packets);
      var e := Essential(Handle(b, p).trace);
      |e| >= 3 && e == Plan(b.engine, serverMode, e[1])
  {
    RunUnderway(serverMode, advertise, packets);
    var b := RunAll(Initial(serverMode, advertise), packets);
    StepUnderway(b, p);
    PathIsPlan(b.engine, serverMode, Essential(Handle(b, p).trace));
    hide Handle, RunAll, Essential, Path;
  }

  /** One of the packets is a KEXINIT with the right marker. */
  ghost predicate Marked(packets: seq<Packet>) {
    exists i :: 0 <= i < |packets| && packets[i].ptype == MSG_KEXINIT && packets[i].marker.RightMarker?
  }

  ghost predicate SomeKexInit(packets: seq<Packet>) {
    exists i :: 0 <= i < |packets| && packets[i].ptype == MSG_KEXINIT
  }

  lemma MarkedPush(packets: seq<Packet>, p: Packet)
    ensures Marked(packets + [p]) <==> Marked(packets) || (p.ptype == MSG_KEXINIT && p.marker.RightMarker?)
    ensures SomeKexInit(packets + [p]) <==> SomeKexInit(packets) || p.ptype == MSG_KEXINIT
  {
    var l := packets + [p];
    assert l[|packets|] == p && forall i :: 0 <= i < |packets| ==> l[i] == packets[i];
  }

  /** Only a KEXINIT decides, and before the first exchange is done only one is taken. */
  lemma StepDecides(s: State, p: Packet)
    requires Underway(s) && s.active && !s.done
    ensures var t := Handle(s, p);
      && t.advertise == s.advertise
      && (t.active && !t.done ==>
          if p.ptype != MSG_KEXINIT then t.strict == s.strict && t.engine == s.engine
          else s.engine.NoEngine? && !t.engine.NoEngine? && t.strict == (s.advertise && p.marker.RightMarker?))
  {
    if !s.engine.NoEngine? && p.ptype == MSG_KEXINIT {
      var e := Essential(s.trace);
      assert p.ptype !in s.expected by {
        if p.ptype in s.expected {
          ExpectedTypes(s.engine, s.serverMode, e[|e| - 1], p.ptype);
        }
        hide Path, ExpectedAfter, Essential, Types;
      }
      OutOfTurn(s, p);
      HandleIs(s, p);
    }
    hide Essential, Types, Path, ExpectedAfter, ParseNext, StartKex;
  }

  lemma {:induction false} RunDecides(serverMode: bool, advertise: bool, packets: seq<Packet>)
    ensures var s := RunAll(Initial(serverMode, advertise), packets);
      && s.advertise == advertise
      && (s.active && !s.done ==>
          if s.engine.NoEngine? then !SomeKexInit(packets) else s.strict == (advertise && Marked(packets)))
  {
    if packets != [] {
      var before, p := packets[..|packets| - 1], packets[|packets| - 1];
      RunDecides(serverMode, advertise, before);
      RunUnderway(serverMode, advertise, before);
      MarkedPush(before, p);
      assert before + [p] == packets;
      var b := RunAll(Initial(serverMode, advertise), before);
      RunStep(Initial(serverMode, advertise), packets, |before|);
      assert packets[..|before|] == before && packets[..|before| + 1] == packets;
      NoMarkWithoutKexInit(before);
      StaysAdvertised(b, p);
      StaysDone(b, p);
      if b.active && !b.done {
        StepDecides(b, p);
        assert b.engine.NoEngine? ==> !b.strict by {
          hide Essential, Types, OnPath;
        }
      }
      hide *;
    }
  }

  lemma NoMarkWithoutKexInit(packets: seq<Packet>)
    ensures Marked(packets) ==> SomeKexInit(packets)
  {
  }

  lemma StaysAdvertised(s: State, p: Packet)
    ensures Handle(s, p).advertise == s.advertise
  {
    hide Dispatch;
    DispatchKeepsAdvertise(s.(seqno := (s.seqno + 1) % SEQ_MAX, trace := s.trace + [(s.seqno, p.ptype)]), s.seqno, p);
  }

  lemma DispatchKeepsAdvertise(u: State, seqno: int, p: Packet)
    ensures Dispatch(u, seqno, p).advertise == u.advertise
  {
    HandlersKeepAdvertise(u.(expected := {}), seqno, p);
    hide ParseKexInit, ParseNewkeys, ParseNext;
  }

  lemma HandlersKeepAdvertise(t: State, seqno: int, p: Packet)
    ensures ParseKexInit(t, seqno, p).advertise == ParseNewkeys(t).advertise == t.advertise
  {
    hide StartKex;
  }

  /** When the first exchange ends, strict mode is on exactly if this side advertised it and the peer's KEXINIT
      carried the right marker; then numbering starts again from zero, and otherwise it has counted every
      packet received. */
  lemma NumberAfterNewkeys(serverMode: bool, advertise: bool, packets: seq<Packet>, p: Packet)
    requires var b := RunAll(Initial(serverMode, advertise), packets); b.active && !b.done
    requires var t := Handle(RunAll(Initial(serverMode, advertise), packets), p); t.active && t.done
    ensures var t := Handle(RunAll(Initial(serverMode, advertise), packets), p);
      && (t.strict <==> advertise && Marked(packets))
      && t.seqno == if advertise && Marked(packets) then 0 else |t.trace|
  {
    RunUnderway(serverMode, advertise, packets);
    RunDecides(serverMode, advertise, packets);
    var b := RunAll(Initial(serverMode, advertise), packets);
    StepUnderway(b, p);
    hide Handle, RunAll, Essential, Types, Path, Underway, Marked, SomeKexInit;
  }

  /** Until the first exchange is done, sequence number zero does mean the first packet: the count may
      not roll over. */
  lemma ZeroMeansFirst(serverMode: bool, advertise: bool, packets: seq<Packet>)
    requires var s := RunAll(Initial(serverMode, advertise), packets); s.active && !s.done
    ensures var s := RunAll(Initial(serverMode, advertise), packets); s.seqno == 0 <==> s.trace == []
  {
    RunUnderway(serverMode, advertise, packets);
  }

  function PlanPackets(engine: Engine, plan: seq<int>): (r: seq<Packet>)
    ensures |r| == |plan|
  {
    seq(|plan|, i requires 0 <= i < |plan| => Packet(plan[i], RightMarker, engine, true))
  }

  predicate Taking(s: State, engine: Engine, serverMode: bool, last: int) {
    && s.active && !s.done && s.strict && s.engine == engine && s.serverMode == serverMode && 0 <= s.seqno < 10
    && s.expected == ExpectedAfter(engine, serverMode, last) && (s.haveK <==> s.expected == {MSG_NEWKEYS})
  }

  lemma TakesKexInit(engine: Engine, serverMode: bool)
    requires !engine.NoEngine?
    ensures Taking(Handle(Initial(serverMode, true), Packet(MSG_KEXINIT, RightMarker, engine, true)), engine, serverMode, MSG_KEXINIT)
  {
    FirstKexInit(Read(Initial(serverMode, true), Packet(MSG_KEXINIT, RightMarker, engine, true)), 0, Packet(MSG_KEXINIT, RightMarker, engine, true));
  }

  lemma TakesMessage(s: State, engine: Engine, serverMode: bool, last: int, x: int)
    requires Taking(s, engine, serverMode, last) && !engine.NoEngine? && x in s.expected && x != MSG_NEWKEYS && s.seqno < 9
    ensures Taking(Handle(s, Packet(x, RightMarker, engine, true)), engine, serverMode, x)
    ensures Handle(s, Packet(x, RightMarker, engine, true)).seqno == s.seqno + 1
  {
    ExpectedTypes(engine, serverMode, last, x);
    assert ExpectedAfter(engine, serverMode, x) == ParseNext(engine, serverMode, x);
    hide ExpectedAfter, ParseNext, ParseKexInit, ParseNewkeys;
  }

  lemma TakesNewkeys(s: State, engine: Engine, serverMode: bool, last: int)
    requires Taking(s, engine, serverMode, last) && s.expected == {MSG_NEWKEYS}
    ensures var t := Handle(s, Packet(MSG_NEWKEYS, RightMarker, engine, true)); t.active && t.done && t.strict && t.seqno == 0
  {
    hide ExpectedAfter, ParseNext, ParseKexInit;
  }

  /** And every plan is taken to its end, in strict mode, by a side that advertises it. */
  lemma PlanIsAccepted(engine: Engine, serverMode: bool, request: int)
    requires !engine.NoEngine?
    ensures var t := RunAll(Initial(serverMode, true), PlanPackets(engine, Plan(engine, serverMode, request)));
      t.active && t.done && t.strict && t.seqno == 0
  {
    var plan := Plan(engine, serverMode, request);
    var p := PlanPackets(engine, plan);
    var s0 := Initial(serverMode, true);
    var n := |plan|;
    RunStep(s0, p, 0);
    TakesKexInit(engine, serverMode);
    hide Handle, RunAll, ParseNext;
    var s1 := Handle(s0, p[0]);
    RunStep(s0, p, 1);
    ZeroAfter(s0, p[0]);
    TakesMessage(s1, engine, serverMode, MSG_KEXINIT, plan[1]);
    var s2 := Handle(s1, p[1]);
    RunStep(s0, p, 2);
    Follow(engine, serverMode, request);
    if n == 4 {
      TakesMessage(s2, engine, serverMode, plan[1], plan[2]);
      var s3 := Handle(s2, p[2]);
      RunStep(s0, p, 3);
      TakesNewkeys(s3, engine, serverMode, plan[2]);
    } else {
      TakesNewkeys(s2, engine, serverMode, plan[1]);
    }
    assert p[..n] == p;
  }

  lemma ZeroAfter(s: State, p: Packet)
    requires s.seqno == 0
    ensures Handle(s, p).seqno <= 1
  {
    var u := s.(seqno := 1, trace := s.trace + [(s.seqno, p.ptype)]);
    DispatchSeqno(u, s.seqno, p);
    hide Dispatch;
  }

  lemma DispatchSeqno(u: State, seqno: int, p: Packet)
    ensures Dispatch(u, seqno, p).seqno == u.seqno || Dispatch(u, seqno, p).seqno == 0
  {
  }

  lemma Follow(engine: Engine, serverMode: bool, request: int)
    requires !engine.NoEngine?
    ensures var plan := Plan(engine, serverMode, request);
      if |plan| == 4 then
        ExpectedAfter(engine, serverMode, plan[1]) == {plan[2]} && plan[2] != MSG_NEWKEYS && plan[1] != MSG_NEWKEYS
        && ExpectedAfter(engine, serverMode, plan[2]) == {MSG_NEWKEYS} && plan[3] == MSG_NEWKEYS
      else |plan| == 3 && plan[1] != MSG_NEWKEYS && ExpectedAfter(engine, serverMode, plan[1]) == {MSG_NEWKEYS} && plan[2] == MSG_NEWKEYS
  {
  }

  lemma RunStep(s: State, packets: seq<Packet>, i: nat)
    requires i < |packets|
    ensures i == 0 ==> RunAll(s, packets[..0]) == s
    ensures var b := RunAll(s, packets[..i]); RunAll(s, packets[..i + 1]) == if b.active then Handle(b, packets[i]) else b
  {
    assert packets[..i + 1][..i] == packets[..i];
    hide Handle;
  }
}
