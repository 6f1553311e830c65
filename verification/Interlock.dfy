/** paramiko/transport.py: the clear_to_send interlock between the transport thread and any number of
    threads that send user messages. Every statement that touches shared state is a step of its own. */
module Interlock {
  import opened Options

  datatype Thread = Transport | User(id: nat)

  /** What goes out, in order; End marks the moment clear_to_send is set again, the end of an exchange. */
  datatype Entry = KexInit | Kex | NewKeys | Direct | UserMessage(sender: Thread) | End

  /** Where a thread is inside _send_user_message. */
  datatype Sender = Out | Waiting | Acquiring | Checking | Sending | Releasing | Retrying

  /** What the transport thread does once it has cleared the event. */
  datatype After = ThenInit(parse: bool) | ThenTest

  datatype Place =
    | Loop                    // the top of run(), and reading a packet
    | ClearAcquire(next: After) | Clear(next: After) | ClearRelease(next: After)
    | SendInit(parse: bool)   // the rest of _send_kex_init
    | Test                    // _negotiate_keys: is our own KEXINIT still to be sent?
    | Parse                   // _parse_kex_init and start_kex
    | SetAcquire | Set | SetRelease  // the end of _parse_newkeys
    | Calling(s: Sender)      // a handler inside _send_user_message
    | Dead

  datatype Expected = Anything | OnlyKexInit | OnlyKex | OnlyNewKeys

  /** What only the transport thread looks at. */
  datatype Private = Private(place: Place, inKex: bool, localKexInit: bool, haveK: bool, expected: Expected)

  datatype State = State(clearToSend: bool, lock: Option<Thread>, active: bool, needRekey: bool,
                         log: seq<Entry>, users: seq<Sender>, own: Private)

  function Initial(threads: nat): State {
    State(false, None, true, false, [], seq(threads, _ => Out),
          Private(ClearAcquire(ThenInit(false)), false, false, false, OnlyKexInit))
  }

  function At(s: State, place: Place): State {
    s.(own := s.own.(place := place))
  }

  datatype Incoming = GotKexInit | GotKex(last: bool) | GotNewKeys | Other(calls: bool)

  datatype Action =
    | NeedRekey(answer: bool)   // the packetizer changes its mind
    | Start                     // the top of the loop: new keys are wanted and no exchange is on
    | Receive(m: Incoming)
    | Go(fails: bool)           // the transport thread's next statement
    | Call(i: nat)              // a thread enters _send_user_message
    | Next(i: nat, fails: bool) // its next statement; a retry may time out
    | Die

  // ---------- _send_user_message ----------

  /** One statement of _send_user_message by the given thread; None if it has to wait. */
  function SenderStep(s: State, me: Thread, at: Sender, fails: bool): Option<(State, Sender)> {
    match at
    case Out => None
    case Waiting => Some((s, if s.active then Acquiring else Out))
    case Acquiring => if s.lock.None? then Some((s.(lock := Some(me)), Checking)) else None
    case Checking => if s.clearToSend then Some((s, Sending)) else Some((s.(lock := None), Retrying))
    case Sending => Some((s.(log := s.log + [UserMessage(me)]), Releasing))
    case Releasing => Some((s.(lock := None), Out))
    case Retrying => Some((s, if fails then Out else Waiting))
  }

  // ---------- the transport thread ----------

  function Kill(s: State): State {
    At(s.(active := false), Dead)
  }

  /** What is sent while one packet is handled, up to the first statement that touches shared state. */
  function Replies(expected: Expected, m: Incoming): seq<Entry> {
    match m
    case GotKex(last) =>
      if expected.Anything? then [Direct]
      else if !expected.OnlyKex? then []
      else if last then [Kex, NewKeys]
      else [Kex]
    case Other(calls) => if expected.Anything? && !calls then [Direct] else []
    case _ => []
  }

  /** Where handling it leads: a packet that was not expected ends the transport thread. */
  function Advance(p: Private, needRekey: bool, m: Incoming): Private {
    match m
    case GotKexInit =>
      if p.expected.Anything? || p.expected.OnlyKexInit? then p.(expected := Anything, place := ClearAcquire(ThenTest))
      else p.(place := Dead)
    case GotKex(last) =>
      if p.expected.Anything? then p
      else if !p.expected.OnlyKex? then p.(place := Dead)
      else if !last then p
      else p.(haveK := true, expected := OnlyNewKeys, inKex := needRekey && p.inKex)
    case GotNewKeys =>
      if (p.expected.Anything? || p.expected.OnlyNewKeys?) && p.haveK then
        p.(expected := Anything, haveK := false, localKexInit := false, place := SetAcquire, inKex := needRekey && p.inKex)
      else p.(place := Dead)
    case Other(calls) =>
      if !p.expected.Anything? then p.(place := Dead)
      else if calls then p.(place := Calling(Waiting))
      else p
  }

  function Handle(s: State, m: Incoming): State {
    var own := Advance(s.own, s.needRekey, m);
    s.(own := own, active := s.active && !own.place.Dead?, log := s.log + Replies(s.own.expected, m))
  }

  function TransportStep(s: State, fails: bool): Option<State> {
    match s.own.place
    case Loop => None
    case Dead => None
    case ClearAcquire(n) => if s.lock.None? then Some(At(s.(lock := Some(Transport)), Clear(n))) else None
    case Clear(n) => Some(At(s.(clearToSend := false), ClearRelease(n)))
    case ClearRelease(n) => Some(At(s.(lock := None), if n.ThenInit? then SendInit(n.parse) else Test))
    case SendInit(parse) =>
      Some(s.(log := s.log + [KexInit], own := s.own.(inKex := true, localKexInit := true, place := if parse then Parse else Loop)))
    case Test => Some(At(s, if s.own.localKexInit then Parse else ClearAcquire(ThenInit(true))))
    case Parse => Some(if fails then Kill(s) else s.(log := s.log + [Kex], own := s.own.(expected := OnlyKex, place := Loop)))
    case SetAcquire => if s.lock.None? then Some(At(s.(lock := Some(Transport)), Set)) else None
    case Set => Some(At(s.(clearToSend := true, log := s.log + [End]), SetRelease))
    case SetRelease => Some(At(s.(lock := None), Loop))
    case Calling(at) =>
      var r := SenderStep(s, Transport, at, fails);
      if r.None? then None
      else if at.Retrying? && fails then Some(Kill(r.value.0))
      else Some(At(r.value.0, if r.value.1.Out? then Loop else Calling(r.value.1)))
  }

  function Step(s: State, a: Action): Option<State> {
    match a
    case NeedRekey(answer) => Some(s.(needRekey := answer))
    case Start =>
      if s.own.place.Loop? && s.active && s.needRekey && !s.own.inKex then Some(At(s, ClearAcquire(ThenInit(false)))) else None
    case Receive(m) => if s.own.place.Loop? && s.active then Some(Handle(s, m)) else None
    case Go(fails) => TransportStep(s, fails)
    case Call(i) => if i < |s.users| && s.users[i].Out? then Some(s.(users := s.users[i := Waiting])) else None
    case Next(i, fails) =>
      if i >= |s.users| then None
      else
        var r := SenderStep(s, User(i), s.users[i], fails);
        if r.None? then None else Some(r.value.0.(users := s.users[i := r.value.1]))
    case Die => if s.own.place.Loop? then Some(Kill(s)) else None
  }

  // ---------- the safety property ----------

  /** Exchanges begun with our KEXINIT and not yet ended. */
  function Outstanding(log: seq<Entry>): int {
    if log == [] then 0
    else Outstanding(log[..|log| - 1]) + (if log[|log| - 1].KexInit? then 1 else if log[|log| - 1].End? then -1 else 0)
  }

  /** No user message goes out while an exchange is outstanding. */
  ghost predicate Quiet(log: seq<Entry>) {
    forall i :: 0 <= i < |log| && log[i].UserMessage? ==> Outstanding(log[..i]) == 0
  }

  lemma OutstandingPush(log: seq<Entry>, e: Entry)
    ensures Outstanding(log + [e]) == Outstanding(log) + (if e.KexInit? then 1 else if e.End? then -1 else 0)
    ensures Quiet(log + [e]) <==> Quiet(log) && (e.UserMessage? ==> Outstanding(log) == 0)
  {
    var l := log + [e];
    assert l[..|log|] == log;
    assert forall i :: 0 <= i < |log| ==> l[i] == log[i] && l[..i] == log[..i];
    if Quiet(l) && e.UserMessage? {
      assert l[|log|].UserMessage?;
    }
    if Quiet(l) {
      forall i | 0 <= i < |log| && log[i].UserMessage? ensures Outstanding(log[..i]) == 0 {
        assert l[i].UserMessage? && l[..i] == log[..i];
      }
    }
  }

  // ---------- the invariant ----------

  predicate Holds(at: Sender) {
    at.Checking? || at.Sending? || at.Releasing?
  }

  predicate TransportHolds(p: Place) {
    p.Clear? || p.ClearRelease? || p.Set? || p.SetRelease? || (p.Calling? && Holds(p.s))
  }

  predicate OwnsLock(s: State, t: Thread) {
    match t
    case Transport => TransportHolds(s.own.place)
    case User(i) => i < |s.users| && Holds(s.users[i])
  }

  /** The lock is held by exactly the thread whose position says so. */
  ghost predicate LockInv(s: State) {
    && (s.lock.Some? ==> OwnsLock(s, s.lock.value))
    && (TransportHolds(s.own.place) ==> s.lock == Some(Transport))
    && (forall i :: 0 <= i < |s.users| && Holds(s.users[i]) ==> s.lock == Some(User(i)))
  }

  /** A thread about to send saw the event set, and nobody could clear it since. */
  ghost predicate SendInv(s: State) {
    && (forall i :: 0 <= i < |s.users| && s.users[i].Sending? ==> s.clearToSend)
    && (s.own.place.Calling? && s.own.place.s.Sending? ==> s.clearToSend)
  }

  predicate Ending(p: Place) {
    p.SetAcquire? || p.Set?
  }

  /** The event stays clear from before our KEXINIT until the exchange has ended. */
  ghost predicate EventInv(s: State) {
    && (s.own.localKexInit || s.own.place.ClearRelease? || s.own.place.SendInit? || s.own.place.Test? || s.own.place.Parse? || Ending(s.own.place)
        ==> !s.clearToSend)
    && (!s.own.place.Dead? ==> Outstanding(s.log) == if s.own.localKexInit || Ending(s.own.place) then 1 else 0)
    && (s.clearToSend ==> Outstanding(s.log) == 0)
  }

  /** Which exchange the transport thread is in. */
  ghost predicate PhaseInv(s: State) {
    && (s.own.place.Parse? ==> s.own.localKexInit)
    && (Ending(s.own.place) || s.own.place.SetRelease? ==> !s.own.localKexInit)
    && (s.own.haveK ==> s.own.localKexInit)
    && (s.own.expected.OnlyKex? ==> s.own.localKexInit && s.own.inKex)
    && (s.own.expected.OnlyNewKeys? <==> s.own.haveK)
    && (Negotiating(s.own.place) ==> s.own.expected.Anything?)
    && (s.own.place.Parse? ==> s.own.inKex)
    && (s.own.localKexInit && !s.own.inKex ==> s.own.haveK && s.own.expected.OnlyNewKeys?)
    && (MustClear(s.own.place) ==> !s.own.localKexInit)
  }

  predicate MustClear(p: Place) {
    p.SendInit? || ((p.ClearAcquire? || p.Clear? || p.ClearRelease?) && p.next.ThenInit?)
  }

  ghost predicate Inv(s: State) {
    LockInv(s) && SendInv(s) && EventInv(s) && PhaseInv(s) && Quiet(s.log)
  }

  predicate Negotiating(p: Place) {
    p.Test? || p.Parse? || (p.SendInit? && p.parse)
    || ((p.ClearAcquire? || p.Clear? || p.ClearRelease?) && (p.next.ThenTest? || p.next.parse))
  }

  /** The transport thread starts an exchange only when none is outstanding. */
  predicate Disciplined(s: State, a: Action) {
    a.Start? ==> !s.own.localKexInit
  }

  // ---------- every step keeps it ----------

  /** What a statement of _send_user_message can change: the lock, between free and its own, and the log. */
  lemma SenderFrame(s: State, me: Thread, at: Sender, fails: bool)
    requires SenderStep(s, me, at, fails).Some?
    requires Holds(at) ==> s.lock == Some(me)
    requires at.Sending? ==> Outstanding(s.log) == 0
    ensures var (t, next) := SenderStep(s, me, at, fails).value;
      && t == s.(lock := t.lock, log := t.log)
      && t.lock == (if Holds(next) then Some(me) else if Holds(at) then None else s.lock)
      && (Holds(next) && !Holds(at) ==> s.lock.None?)
      && (next.Sending? ==> s.clearToSend)
      && Outstanding(t.log) == Outstanding(s.log) && (Quiet(s.log) ==> Quiet(t.log))
  {
    OutstandingPush(s.log, UserMessage(me));
    hide Outstanding, Quiet;
  }

  lemma UserKeeps(s: State, i: nat, fails: bool, t: State)
    requires Inv(s) && Step(s, Next(i, fails)) == Some(t)
    ensures Inv(t)
  {
    SenderFrame(s, User(i), s.users[i], fails);
    hide Outstanding, Quiet, SenderStep;
    assert LockInv(t) by {
      hide EventInv, PhaseInv, SendInv;
    }
    assert SendInv(t) by {
      hide EventInv, PhaseInv, LockInv;
    }
    hide LockInv, SendInv;
  }

  lemma CallKeeps(s: State, i: nat, t: State)
    requires Inv(s) && Step(s, Call(i)) == Some(t)
    ensures Inv(t)
  {
    hide Outstanding, Quiet;
  }

  lemma CallingKeeps(s: State, fails: bool, t: State)
    requires Inv(s) && s.own.place.Calling? && TransportStep(s, fails) == Some(t)
    ensures Inv(t)
  {
    SenderFrame(s, Transport, s.own.place.s, fails);
    hide Outstanding, Quiet, SenderStep;
    assert LockInv(t) by {
      hide EventInv, PhaseInv, SendInv;
    }
    assert SendInv(t) by {
      hide EventInv, PhaseInv, LockInv;
    }
    hide LockInv, SendInv;
  }

  lemma ClearingKeeps(s: State, fails: bool, t: State)
    requires Inv(s) && (s.own.place.ClearAcquire? || s.own.place.Clear? || s.own.place.ClearRelease?)
    requires TransportStep(s, fails) == Some(t)
    ensures Inv(t)
  {
    hide Outstanding, Quiet;
  }

  lemma NegotiatingKeeps(s: State, fails: bool, t: State)
    requires Inv(s) && (s.own.place.SendInit? || s.own.place.Test? || s.own.place.Parse?)
    requires TransportStep(s, fails) == Some(t)
    ensures Inv(t)
  {
    OutstandingPush(s.log, KexInit);
    OutstandingPush(s.log, Kex);
    hide Outstanding, Quiet;
  }

  lemma EndingKeeps(s: State, fails: bool, t: State)
    requires Inv(s) && (Ending(s.own.place) || s.own.place.SetRelease?)
    requires TransportStep(s, fails) == Some(t)
    ensures Inv(t)
  {
    OutstandingPush(s.log, End);
    hide Outstanding, Quiet;
  }

  lemma HandleLog(s: State, m: Incoming)
    requires Quiet(s.log)
    ensures Quiet(Handle(s, m).log) && Outstanding(Handle(s, m).log) == Outstanding(s.log)
  {
    hide Outstanding, Quiet;
    OutstandingPush(s.log, Kex);
    OutstandingPush(s.log, Direct);
    OutstandingPush(s.log + [Kex], NewKeys);
    assert s.log + [Kex, NewKeys] == (s.log + [Kex]) + [NewKeys] && s.log + [] == s.log;
  }

  lemma HandlePhase(s: State, m: Incoming)
    requires PhaseInv(s) && s.own.place.Loop?
    ensures var p := Advance(s.own, s.needRekey, m);
      && PhaseInv(Handle(s, m))
      && (p.place.Loop? || p.place.Dead? || p.place == Calling(Waiting) || p.place == SetAcquire || p.place == ClearAcquire(ThenTest))
      && p.localKexInit == (s.own.localKexInit && p.place != SetAcquire)
      && (p.place == SetAcquire ==> s.own.localKexInit)
  {
    hide Replies;
  }

  lemma HandleKeeps(s: State, m: Incoming)
    requires Inv(s) && s.own.place.Loop?
    ensures Inv(Handle(s, m))
  {
    HandleLog(s, m);
    HandlePhase(s, m);
    HandleFrame(s, m);
    hide Advance, Replies, Quiet, Outstanding, PhaseInv, LockInv, SendInv;
  }

  lemma HandleFrame(s: State, m: Incoming)
    requires LockInv(s) && SendInv(s) && PhaseInv(s) && s.own.place.Loop?
    ensures LockInv(Handle(s, m)) && SendInv(Handle(s, m))
  {
    HandlePhase(s, m);
    hide Advance, Replies, PhaseInv;
    SameFrame(s, Handle(s, m));
  }

  lemma SameFrame(s: State, t: State)
    requires LockInv(s) && SendInv(s) && !TransportHolds(s.own.place) && !TransportHolds(t.own.place)
    requires t.lock == s.lock && t.users == s.users && t.clearToSend == s.clearToSend
    ensures LockInv(t) && SendInv(t)
  {
  }

  /** Any step at all, of any thread, as long as exchanges do not overlap. */
  lemma StepKeepsInv(s: State, a: Action, t: State)
    requires Inv(s) && Disciplined(s, a) && Step(s, a) == Some(t)
    ensures Inv(t)
  {
    match a
    case NeedRekey(_) => hide Outstanding, Quiet;
    case Start => hide Outstanding, Quiet;
    case Receive(m) => HandleKeeps(s, m);
    case Go(fails) =>
      if s.own.place.Calling? {
        CallingKeeps(s, fails, t);
      } else if s.own.place.SendInit? || s.own.place.Test? || s.own.place.Parse? {
        NegotiatingKeeps(s, fails, t);
      } else if Ending(s.own.place) || s.own.place.SetRelease? {
        EndingKeeps(s, fails, t);
      } else {
        ClearingKeeps(s, fails, t);
      }
    case Call(i) => CallKeeps(s, i, t);
    case Next(i, fails) => UserKeeps(s, i, fails, t);
    case Die => hide Outstanding, Quiet;
  }

  // ---------- runs ----------

  ghost predicate Run(states: seq<State>, actions: seq<Action>) {
    && |states| == |actions| + 1
    && forall i :: 0 <= i < |actions| ==> Step(states[i], actions[i]) == Some(states[i + 1])
  }

  /** No exchange is begun while another is outstanding. */
  ghost predicate NoOverlap(states: seq<State>, actions: seq<Action>) {
    forall i :: 0 <= i < |actions| && i < |states| ==> Disciplined(states[i], actions[i])
  }

  lemma InitialInv(threads: nat)
    ensures Inv(Initial(threads))
  {
  }

  lemma {:induction false} RunKeepsInv(states: seq<State>, actions: seq<Action>, i: nat)
    requires Run(states, actions) && NoOverlap(states, actions) && Inv(states[0]) && i < |states|
    ensures Inv(states[i])
  {
    if i > 0 {
      RunKeepsInv(states, actions, i - 1);
      StepKeepsInv(states[i - 1], actions[i - 1], states[i]);
    }
  }

  /** RFC 4253 section 7.1: over every interleaving of any number of threads, nothing a user sends
      goes out between our KEXINIT and the end of that exchange. */
  lemma NoUserMessageDuringKex(threads: nat, states: seq<State>, actions: seq<Action>, i: nat)
    requires Run(states, actions) && NoOverlap(states, actions) && states[0] == Initial(threads) && i < |states|
    ensures Quiet(states[i].log)
  {
    InitialInv(threads);
    RunKeepsInv(states, actions, i);
  }

  // ---------- no message is dropped without a reason ----------

  /** How many user messages of the given thread have gone out. */
  function Sent(log: seq<Entry>, me: Thread): nat {
    if log == [] then 0
    else Sent(log[..|log| - 1], me) + if log[|log| - 1] == UserMessage(me) then 1 else 0
  }

  lemma SentPush(log: seq<Entry>, e: Entry, me: Thread)
    ensures Sent(log + [e], me) == Sent(log, me) + if e == UserMessage(me) then 1 else 0
  {
    assert (log + [e])[..|log|] == log;
  }

  lemma {:induction false} SentSkips(log: seq<Entry>, more: seq<Entry>, me: Thread)
    requires UserMessage(me) !in more
    ensures Sent(log + more, me) == Sent(log, me)
    decreases |more|
  {
    if more == [] {
      assert log + more == log;
    } else {
      var m, e := more[..|more| - 1], more[|more| - 1];
      assert log + more == (log + m) + [e];
      SentPush(log + m, e, me);
      hide Sent;
      SentSkips(log, m, me);
    }
  }

  /** What a statement of the transport thread, or a packet it handles, adds to the log. */
  lemma TransportAdds(s: State, fails: bool, t: State) returns (more: seq<Entry>)
    requires TransportStep(s, fails) == Some(t)
    ensures t.log == s.log + more && t.users == s.users && forall i :: UserMessage(User(i)) !in more
  {
    more := [];
    assert s.log + more == s.log;
    match s.own.place
    case SendInit(_) => more := [KexInit];
    case Parse => more := if fails then [] else [Kex];
    case Set => more := [End];
    case Calling(at) => more := if at.Sending? then [UserMessage(Transport)] else [];
    case _ =>
  }

  /** One statement of another thread is no message of this one. */
  lemma OthersSend(s: State, a: Action, t: State, i: nat)
    requires Step(s, a) == Some(t) && i < |s.users| && !(a.Next? && a.i == i)
    ensures |t.users| == |s.users| && Sent(t.log, User(i)) == Sent(s.log, User(i))
    ensures t.users[i] == (if a == Call(i) then Waiting else s.users[i])
  {
    hide Sent;
    match a
    case Go(fails) =>
      var more := TransportAdds(s, fails, t);
      SentSkips(s.log, more, User(i));
      hide TransportStep;
    case Receive(m) =>
      hide Advance;
      SentSkips(s.log, Replies(s.own.expected, m), User(i));
    case Next(j, fails) =>
      SentPush(s.log, UserMessage(User(j)), User(i));
    case _ =>
      hide TransportStep, SenderStep, Handle;
  }

  /** The connection is dead, or it took too long. */
  ghost predicate GivesUp(s: State, a: Action, i: nat)
    requires i < |s.users|
  {
    (s.users[i].Waiting? && !s.active) || (s.users[i].Retrying? && a == Next(i, true))
  }

  /** A thread inside _send_user_message has sent nothing before the statement that sends, one message after it,
      and leaves without having sent only when it gives up. */
  lemma SendsOrGivesUp(s: State, a: Action, t: State, i: nat)
    requires Step(s, a) == Some(t) && i < |s.users| && !s.users[i].Out?
    ensures |t.users| == |s.users|
    ensures var n := Sent(t.log, User(i)) - Sent(s.log, User(i));
      if t.users[i].Out? then n == 0 && (s.users[i].Releasing? || GivesUp(s, a, i))
      else n == (if t.users[i].Releasing? then 1 else 0) - (if s.users[i].Releasing? then 1 else 0)
  {
    if a.Next? && a.i == i {
      SentPush(s.log, UserMessage(User(i)), User(i));
      hide Sent;
    } else {
      OthersSend(s, a, t, i);
      hide Step, Sent;
    }
  }

  lemma {:induction false} InsideRun(states: seq<State>, actions: seq<Action>, i: nat, first: nat, n: nat)
    requires Run(states, actions) && first < n < |states| && i < |states[first].users| && actions[first] == Call(i)
    requires forall k :: first < k < n ==> i < |states[k].users| && !states[k].users[i].Out?
    ensures i < |states[n].users|
    ensures !states[n].users[i].Out? ==>
      Sent(states[n].log, User(i)) == Sent(states[first].log, User(i)) + if states[n].users[i].Releasing? then 1 else 0
  {
    hide Step, Sent, GivesUp;
    assert Step(states[n - 1], actions[n - 1]) == Some(states[n]);
    if n == first + 1 {
      OthersSend(states[first], actions[first], states[n], i);
    } else {
      InsideRun(states, actions, i, first, n - 1);
      SendsOrGivesUp(states[n - 1], actions[n - 1], states[n], i);
    }
  }

  /** Over any run, whatever the exchanges do meanwhile: a thread that enters _send_user_message and comes out
      has sent exactly its one message, or has sent none because the connection died or the wait timed out. */
  lemma NothingIsDropped(states: seq<State>, actions: seq<Action>, i: nat, first: nat, last: nat)
    requires Run(states, actions) && first < last < |states| && i < |states[first].users| && actions[first] == Call(i)
    requires forall k :: first < k < last ==> i < |states[k].users| && !states[k].users[i].Out?
    requires i < |states[last].users| && states[last].users[i].Out?
    ensures var n := Sent(states[last].log, User(i)) - Sent(states[first].log, User(i));
      && n <= 1
      && (n != 1 ==> n == 0 && GivesUp(states[last - 1], actions[last - 1], i))
  {
    hide Step, Sent, GivesUp;
    assert Step(states[last - 1], actions[last - 1]) == Some(states[last]);
    if last == first + 1 {
      OthersSend(states[first], actions[first], states[last], i);
    } else {
      InsideRun(states, actions, i, first, last - 1);
      SendsOrGivesUp(states[last - 1], actions[last - 1], states[last], i);
    }
  }

  // ---------- the discipline is needed ----------

  function RunAll(s: State, actions: seq<Action>): Option<State>
    decreases |actions|
  {
    if actions == [] then Some(s)
    else
      var t := Step(s, actions[0]);
      if t.None? then None else RunAll(t.value, actions[1..])
  }

  /** The code alone does not keep it: _activate_outbound resets in_kex when NEWKEYS is sent, so the
      loop may begin another exchange before the peer's NEWKEYS. Wherever that happens, the late
      NEWKEYS sets the event, and any idle thread can then send inside the new exchange. */
  lemma OverlapBreaks(s: State, i: nat)
    requires Inv(s) && Step(s, Start).Some? && !Disciplined(s, Start)
    requires i < |s.users| && s.users[i].Out? && s.lock.None?
    ensures exists actions :: var t := RunAll(s, actions); t.Some? && !Quiet(t.value.log)
  {
    hide RunAll, Outstanding;
    var opening := [Start, Go(false), Go(false), Go(false), Go(false), NeedRekey(false)];
    var newkeys := [Receive(GotNewKeys), Go(false), Go(false), Go(false)];
    var sending := [Call(i), Next(i, false), Next(i, false), Next(i, false), Next(i, false)];
    Opening(s);
    var t1 := RunAll(s, opening).value;
    LateNewkeys(t1);
    var t2 := RunAll(t1, newkeys).value;
    UserSends(t2, i);
    NotQuiet(s.log, User(i));
    hide Step, Inv, Quiet;
    RunAllAppend(s, opening, newkeys);
    RunAllAppend(s, opening + newkeys, sending);
  }

  lemma NotQuiet(log: seq<Entry>, t: Thread)
    requires Outstanding(log) == 1
    ensures !Quiet(log + [KexInit] + [End] + [UserMessage(t)])
  {
    OutstandingPush(log, KexInit);
    OutstandingPush(log + [KexInit], End);
    OutstandingPush(log + [KexInit] + [End], UserMessage(t));
  }

  lemma {:induction false} RunAllAppend(s: State, a: seq<Action>, b: seq<Action>)
    requires RunAll(s, a).Some?
    ensures RunAll(s, a + b) == RunAll(RunAll(s, a).value, b)
    decreases |a|
  {
    if a == [] {
      assert a + b == b;
    } else {
      assert (a + b)[1..] == a[1..] + b;
      RunAllAppend(Step(s, a[0]).value, a[1..], b);
    }
  }

  lemma One(s: State, a: Action, rest: seq<Action>)
    ensures RunAll(s, [a] + rest) == if Step(s, a).None? then None else RunAll(Step(s, a).value, rest)
  {
    assert ([a] + rest)[1..] == rest;
  }

  lemma Opening(s: State)
    requires Step(s, Start).Some? && s.lock.None?
    ensures RunAll(s, [Start, Go(false), Go(false), Go(false), Go(false), NeedRekey(false)])
         == Some(s.(clearToSend := false, log := s.log + [KexInit], needRekey := false,
                    own := s.own.(inKex := true, localKexInit := true, place := Loop)))
  {
    var s1 := At(s, ClearAcquire(ThenInit(false)));
    var s2 := At(s1.(lock := Some(Transport)), Clear(ThenInit(false)));
    var s3 := At(s2.(clearToSend := false), ClearRelease(ThenInit(false)));
    var s4 := At(s3.(lock := None), SendInit(false));
    var s5 := s4.(log := s.log + [KexInit], own := s4.own.(inKex := true, localKexInit := true, place := Loop));
    assert Step(s, Start) == Some(s1) && Step(s1, Go(false)) == Some(s2) && Step(s2, Go(false)) == Some(s3);
    assert Step(s3, Go(false)) == Some(s4) && Step(s4, Go(false)) == Some(s5);
    var s6 := s5.(needRekey := false);
    assert Step(s5, NeedRekey(false)) == Some(s6);
    hide Step;
    One(s5, NeedRekey(false), []);
    One(s4, Go(false), [NeedRekey(false)]);
    One(s3, Go(false), [Go(false), NeedRekey(false)]);
    One(s2, Go(false), [Go(false), Go(false), NeedRekey(false)]);
    One(s1, Go(false), [Go(false), Go(false), Go(false), NeedRekey(false)]);
    One(s, Start, [Go(false), Go(false), Go(false), Go(false), NeedRekey(false)]);
  }

  lemma LateNewkeys(s: State)
    requires s.own.place.Loop? && s.active && s.lock.None? && s.own.haveK && s.own.expected.OnlyNewKeys? && !s.needRekey
    ensures RunAll(s, [Receive(GotNewKeys), Go(false), Go(false), Go(false)])
         == Some(s.(clearToSend := true, log := s.log + [End], own := Private(Loop, false, false, false, Anything)))
  {
    var s1 := s.(own := Private(SetAcquire, false, false, false, Anything));
    var s2 := At(s1.(lock := Some(Transport)), Set);
    var s3 := At(s2.(clearToSend := true, log := s.log + [End]), SetRelease);
    var s4 := At(s3.(lock := None), Loop);
    assert s.log + [] == s.log;
    assert Step(s, Receive(GotNewKeys)) == Some(s1) && Step(s1, Go(false)) == Some(s2);
    assert Step(s2, Go(false)) == Some(s3) && Step(s3, Go(false)) == Some(s4);
    hide Step;
    One(s3, Go(false), []);
    One(s2, Go(false), [Go(false)]);
    One(s1, Go(false), [Go(false), Go(false)]);
    One(s, Receive(GotNewKeys), [Go(false), Go(false), Go(false)]);
  }

  lemma UserSends(s: State, i: nat)
    requires i < |s.users| && s.users[i].Out? && s.lock.None? && s.active && s.clearToSend
    ensures var t := RunAll(s, [Call(i), Next(i, false), Next(i, false), Next(i, false), Next(i, false)]);
      t.Some? && t.value.log == s.log + [UserMessage(User(i))]
  {
    var s1 := s.(users := s.users[i := Waiting]);
    var s2 := s1.(users := s1.users[i := Acquiring]);
    var s3 := s2.(lock := Some(User(i)), users := s2.users[i := Checking]);
    var s4 := s3.(users := s3.users[i := Sending]);
    var s5 := s4.(log := s.log + [UserMessage(User(i))], users := s4.users[i := Releasing]);
    assert Step(s, Call(i)) == Some(s1) && Step(s1, Next(i, false)) == Some(s2) && Step(s2, Next(i, false)) == Some(s3);
    assert Step(s3, Next(i, false)) == Some(s4) && Step(s4, Next(i, false)) == Some(s5);
    hide Step;
    One(s4, Next(i, false), []);
    One(s3, Next(i, false), [Next(i, false)]);
    One(s2, Next(i, false), [Next(i, false), Next(i, false)]);
    One(s1, Next(i, false), [Next(i, false), Next(i, false), Next(i, false)]);
    One(s, Call(i), [Next(i, false), Next(i, false), Next(i, false), Next(i, false)]);
  }

  /** Such a state is reached in the ordinary course of things: once our NEWKEYS is out, the packetizer
      only has to ask for another exchange before the peer's NEWKEYS is in. */
  lemma OverlapIsReachable(threads: nat)
    ensures exists actions :: var t := RunAll(Initial(threads), actions);
      t.Some? && Inv(t.value) && t.value.lock.None? && t.value.users == Initial(threads).users
      && Step(t.value, Start).Some? && !Disciplined(t.value, Start)
  {
    var s := Initial(threads);
    var go := Go(false);
    var s1 := s.(log := s.log + [KexInit], own := Private(Loop, true, true, false, OnlyKexInit));
    var s2 := s1.(log := s1.log + [Kex], own := Private(Loop, true, true, false, OnlyKex));
    var s3 := s2.(log := s2.log + [Kex, NewKeys], own := Private(Loop, false, true, true, OnlyNewKeys), needRekey := true);
    FirstKexInit(s);
    PeersKexInit(s1);
    LastKexMessage(s2);
    ReadyToOverlap(s3);
    hide RunAll, Step, Inv;
    RunAllAppend(s, [go, go, go, go], [Receive(GotKexInit), go, go, go, go, go]);
    RunAllAppend(s, [go, go, go, go] + [Receive(GotKexInit), go, go, go, go, go], [Receive(GotKex(true)), NeedRekey(true)]);
  }

  lemma ReadyToOverlap(s: State)
    requires s.log == (([] + [KexInit]) + [Kex]) + [Kex, NewKeys] && s.own == Private(Loop, false, true, true, OnlyNewKeys)
    requires s.lock.None? && s.active && s.needRekey && !s.clearToSend && forall i :: 0 <= i < |s.users| ==> s.users[i].Out?
    ensures Inv(s) && Step(s, Start).Some? && !Disciplined(s, Start)
  {
    QuietLog(s.log);
    hide Quiet, Outstanding;
  }

  lemma LastKexMessage(s: State)
    requires s.own == Private(Loop, true, true, false, OnlyKex) && s.active && !s.needRekey
    ensures RunAll(s, [Receive(GotKex(true)), NeedRekey(true)])
         == Some(s.(log := s.log + [Kex, NewKeys], own := Private(Loop, false, true, true, OnlyNewKeys), needRekey := true))
  {
    var t := s.(log := s.log + [Kex, NewKeys], own := Private(Loop, false, true, true, OnlyNewKeys));
    assert Step(s, Receive(GotKex(true))) == Some(t);
    hide Step;
    assert Step(t, NeedRekey(true)) == Some(t.(needRekey := true)) by {
      StepNeed(t, true);
    }
    One(t, NeedRekey(true), []);
    One(s, Receive(GotKex(true)), [NeedRekey(true)]);
  }

  lemma StepNeed(s: State, answer: bool)
    ensures Step(s, NeedRekey(answer)) == Some(s.(needRekey := answer))
  {
  }

  lemma QuietLog(log: seq<Entry>)
    requires log == (([] + [KexInit]) + [Kex]) + [Kex, NewKeys]
    ensures Quiet(log) && Outstanding(log) == 1
  {
    OutstandingPush([], KexInit);
    OutstandingPush([KexInit], Kex);
    OutstandingPush([KexInit, Kex], Kex);
    OutstandingPush([KexInit, Kex, Kex], NewKeys);
    assert [] + [KexInit] == [KexInit];
    assert [KexInit, Kex, Kex] + [NewKeys] == log;
    assert Outstanding([]) == 0 && Quiet([]);
    hide Outstanding, Quiet;
  }

  lemma FirstKexInit(s: State)
    requires s.own == Private(ClearAcquire(ThenInit(false)), false, false, false, OnlyKexInit) && s.lock.None? && !s.clearToSend
    ensures RunAll(s, [Go(false), Go(false), Go(false), Go(false)])
         == Some(s.(log := s.log + [KexInit], own := Private(Loop, true, true, false, OnlyKexInit)))
  {
    var s2 := At(s.(lock := Some(Transport)), Clear(ThenInit(false)));
    var s3 := At(s2.(clearToSend := false), ClearRelease(ThenInit(false)));
    var s4 := At(s3.(lock := None), SendInit(false));
    var s5 := s4.(log := s.log + [KexInit], own := Private(Loop, true, true, false, OnlyKexInit));
    assert Step(s, Go(false)) == Some(s2) && Step(s2, Go(false)) == Some(s3);
    assert Step(s3, Go(false)) == Some(s4) && Step(s4, Go(false)) == Some(s5);
    hide Step;
    One(s4, Go(false), []);
    One(s3, Go(false), [Go(false)]);
    One(s2, Go(false), [Go(false), Go(false)]);
    One(s, Go(false), [Go(false), Go(false), Go(false)]);
  }

  lemma PeersKexInit(s: State)
    requires s.own == Private(Loop, true, true, false, OnlyKexInit) && s.active && s.lock.None? && !s.clearToSend
    ensures RunAll(s, [Receive(GotKexInit), Go(false), Go(false), Go(false), Go(false), Go(false)])
         == Some(s.(log := s.log + [Kex], own := Private(Loop, true, true, false, OnlyKex)))
  {
    var s1 := s.(own := Private(ClearAcquire(ThenTest), true, true, false, Anything));
    var s2 := At(s1.(lock := Some(Transport)), Clear(ThenTest));
    var s3 := At(s2, ClearRelease(ThenTest));
    var s4 := At(s3.(lock := None), Test);
    var s5 := At(s4, Parse);
    var s6 := s5.(log := s.log + [Kex], own := Private(Loop, true, true, false, OnlyKex));
    assert s.log + Replies(OnlyKexInit, GotKexInit) == s.log;
    assert Step(s, Receive(GotKexInit)) == Some(s1) && Step(s1, Go(false)) == Some(s2) && Step(s2, Go(false)) == Some(s3);
    assert Step(s3, Go(false)) == Some(s4) && Step(s4, Go(false)) == Some(s5) && Step(s5, Go(false)) == Some(s6);
    hide Step;
    One(s5, Go(false), []);
    One(s4, Go(false), [Go(false)]);
    One(s3, Go(false), [Go(false), Go(false)]);
    One(s2, Go(false), [Go(false), Go(false), Go(false)]);
    One(s1, Go(false), [Go(false), Go(false), Go(false), Go(false)]);
    One(s, Receive(GotKexInit), [Go(false), Go(false), Go(false), Go(false), Go(false)]);
  }
}
