/** paramiko/auth_handler.py: server-side authentication, with the part of the transport that keeps
    unauthenticated peers from opening channels. */
module Auth {
  import opened Options
  import opened Bytes
  import Messages

  const SSH_CONNECTION := Ascii("ssh-connection")
  const SSH_USERAUTH := Ascii("ssh-userauth")
  const MAX_FAILURES := 10

  /** What the application's check_auth_* callbacks return; Query is an InteractiveQuery. */
  datatype Answer = Successful | Partial | Failed | Query

  datatype Method =
    | NoneMethod
    | Password(changereq: bool)
    | PublicKey(sigAttached: bool, algorithm: seq<byte>, keyblob: seq<byte>, sig: seq<byte>)
    | Interactive
    | Unknown

  /** A message from the peer, with the answer the callback gives if it is asked. */
  datatype Event =
    | ServiceRequest(service: seq<byte>)
    | UserauthRequest(username: seq<byte>, authService: seq<byte>, how: Method, answer: Answer)
    | InfoResponse(reply: Answer)
    | GlobalRequest
    | ChannelOpen(id: nat, granted: bool)
    | Hangup

  datatype Out = ServiceAccept | Success | Failure(partial: bool) | PkOk | InfoRequest | Disconnect
               | RequestFailure | RequestAnswer | OpenFailure | OpenSuccess(id: nat)

  /** Public keys: reading one from a received blob, for an algorithm the server allows, and checking a
      signature with it. A key stands for itself in its own encoding, which need not be the
      received one. */
  datatype Keys = Keys(read: (seq<byte>, seq<byte>) -> Option<seq<byte>>,
                       verify: (seq<byte>, seq<byte>, seq<byte>) -> bool)

  datatype State = State(active: bool, authenticated: bool, username: Option<seq<byte>>, failCount: nat,
                         channels: set<nat>, sent: seq<Out>)

  function Initial(): State {
    State(true, false, None, 0, {}, [])
  }

  // ---------- the signed blob ----------

  function BlobItems(sessionId: seq<byte>, username: seq<byte>, service: seq<byte>, algorithm: seq<byte>, key: seq<byte>): seq<Messages.Item> {
    [Messages.Str(sessionId), Messages.Raw([50]), Messages.Str(username), Messages.Str(service),
     Messages.Str(Ascii("publickey")), Messages.Bool(true), Messages.Str(algorithm), Messages.Str(key)]
  }

  /** _get_session_blob; None where a field is too long to be written. */
  function SessionBlob(sessionId: seq<byte>, username: seq<byte>, service: seq<byte>, algorithm: seq<byte>, key: seq<byte>): Option<seq<byte>> {
    var items := BlobItems(sessionId, username, service, algorithm, key);
    if Messages.AllEncodable(items) then Some(Messages.EncodeAll(items)) else None
  }

  /** Section 7 of RFC 4252: what a client signs. */
  lemma BlobLayout(sessionId: seq<byte>, username: seq<byte>, service: seq<byte>, algorithm: seq<byte>, key: seq<byte>)
    requires |sessionId| < 0x1_0000_0000 && |username| < 0x1_0000_0000 && |service| < 0x1_0000_0000
    requires |algorithm| < 0x1_0000_0000 && |key| < 0x1_0000_0000
    ensures SessionBlob(sessionId, username, service, algorithm, key)
         == Some(Field(sessionId) + [50] + Field(username) + Field(service) + Field(Ascii("publickey"))
                 + [1] + Field(algorithm) + Field(key))
  {
    var items := BlobItems(sessionId, username, service, algorithm, key);
    hide Field, Ascii;
    assert Messages.AllEncodable(items);
    hide Messages.Encode, BlobItems;
    EncodeEight(items);
    EncodedItems(sessionId, username, service, algorithm, key);
  }

  /** A string as it stands in a message: its length, then its bytes. */
  function Field(b: seq<byte>): seq<byte>
    requires |b| < 0x1_0000_0000
  {
    Messages.EncodeString(b)
  }

  lemma EncodedItems(s: seq<byte>, u: seq<byte>, v: seq<byte>, a: seq<byte>, k: seq<byte>)
    requires |s| < 0x1_0000_0000 && |u| < 0x1_0000_0000 && |v| < 0x1_0000_0000
    requires |a| < 0x1_0000_0000 && |k| < 0x1_0000_0000
    ensures var i := BlobItems(s, u, v, a, k);
      && |i| == 8 && Messages.AllEncodable(i)
      && Messages.Encode(i[0]) == Field(s) && Messages.Encode(i[1]) == [50] && Messages.Encode(i[2]) == Field(u)
      && Messages.Encode(i[3]) == Field(v) && Messages.Encode(i[4]) == Field(Ascii("publickey"))
      && Messages.Encode(i[5]) == [1] && Messages.Encode(i[6]) == Field(a) && Messages.Encode(i[7]) == Field(k)
  {
    hide Ascii, Messages.EncodeString;
  }

  lemma EncodeEight(i: seq<Messages.Item>)
    requires |i| == 8 && Messages.AllEncodable(i)
    ensures Messages.EncodeAll(i)
         == Messages.Encode(i[0]) + Messages.Encode(i[1]) + Messages.Encode(i[2]) + Messages.Encode(i[3])
            + Messages.Encode(i[4]) + Messages.Encode(i[5]) + Messages.Encode(i[6]) + Messages.Encode(i[7])
  {
    hide Messages.Encode, Messages.Encodable;
    EncodeFour(i);
    EncodeFour(i[4..]);
    var none: seq<Messages.Item> := [];
    assert i[4..][4..] == none;
    assert Messages.EncodeAll(none) == [];
  }

  lemma EncodeFour(i: seq<Messages.Item>)
    requires |i| >= 4 && Messages.AllEncodable(i)
    ensures Messages.AllEncodable(i[4..])
    ensures Messages.EncodeAll(i)
         == Messages.Encode(i[0]) + Messages.Encode(i[1]) + Messages.Encode(i[2]) + Messages.Encode(i[3])
            + Messages.EncodeAll(i[4..])
  {
    hide Messages.Encode, Messages.Encodable, Messages.EncodeAll;
    EncodeTwo(i);
    EncodeTwo(i[2..]);
    assert i[2..][2..] == i[4..];
  }

  lemma EncodeTwo(i: seq<Messages.Item>)
    requires |i| >= 2 && Messages.AllEncodable(i)
    ensures Messages.AllEncodable(i[2..])
    ensures Messages.EncodeAll(i) == Messages.Encode(i[0]) + Messages.Encode(i[1]) + Messages.EncodeAll(i[2..])
  {
    hide Messages.Encode, Messages.Encodable;
    var t := i[1..];
    assert t[1..] == i[2..];
    assert Messages.EncodeAll(t) == Messages.Encode(i[1]) + Messages.EncodeAll(t[1..]);
  }

  /** A signature over a session blob is good for one session, user, service, algorithm and key only. */
  lemma BlobIsUnambiguous(s1: seq<byte>, u1: seq<byte>, v1: seq<byte>, a1: seq<byte>, k1: seq<byte>,
                          s2: seq<byte>, u2: seq<byte>, v2: seq<byte>, a2: seq<byte>, k2: seq<byte>)
    requires SessionBlob(s1, u1, v1, a1, k1).Some?
    requires SessionBlob(s1, u1, v1, a1, k1) == SessionBlob(s2, u2, v2, a2, k2)
    ensures s1 == s2 && u1 == u2 && v1 == v2 && a1 == a2 && k1 == k2
  {
    var x, y := BlobItems(s1, u1, v1, a1, k1), BlobItems(s2, u2, v2, a2, k2);
    var e := Messages.EncodeAll(x);
    assert Messages.IsAt(e, 0, e);
    BlobKinds(s1, u1, v1, a1, k1);
    BlobKinds(s2, u2, v2, a2, k2);
    hide Messages.EncodeAll, Messages.DecodeAll, Messages.AllEncodable, Messages.AllPlain, Messages.Kinds, BlobItems;
    Messages.RoundTrip(x, e, 0);
    Messages.RoundTrip(y, e, 0);
    SameItems(s1, u1, v1, a1, k1, s2, u2, v2, a2, k2);
  }

  lemma SameItems(s1: seq<byte>, u1: seq<byte>, v1: seq<byte>, a1: seq<byte>, k1: seq<byte>,
                  s2: seq<byte>, u2: seq<byte>, v2: seq<byte>, a2: seq<byte>, k2: seq<byte>)
    requires BlobItems(s1, u1, v1, a1, k1) == BlobItems(s2, u2, v2, a2, k2)
    ensures s1 == s2 && u1 == u2 && v1 == v2 && a1 == a2 && k1 == k2
  {
    var x, y := BlobItems(s1, u1, v1, a1, k1), BlobItems(s2, u2, v2, a2, k2);
    assert x[0] == y[0] && x[2] == y[2] && x[3] == y[3] && x[6] == y[6] && x[7] == y[7];
  }

  lemma BlobKinds(s: seq<byte>, u: seq<byte>, v: seq<byte>, a: seq<byte>, k: seq<byte>)
    ensures Messages.Kinds(BlobItems(s, u, v, a, k)) == BlobKindList()
    ensures Messages.AllPlain(BlobItems(s, u, v, a, k))
  {
    var items := BlobItems(s, u, v, a, k);
    Messages.KindsByItem(items);
    hide Messages.Kinds;
    assert |items| == 8;
  }

  function BlobKindList(): seq<Messages.Kind> {
    [Messages.KStr, Messages.KRaw(1), Messages.KStr, Messages.KStr, Messages.KStr, Messages.KBool, Messages.KStr, Messages.KStr]
  }

  // ---------- one message ----------

  function Send(s: State, o: Out): State {
    s.(sent := s.sent + [o])
  }

  /** _disconnect_*: the message, then close(), which unlinks every channel. */
  function Drop(s: State): State {
    Send(s, Disconnect).(active := false, channels := {})
  }

  function SendAuthResult(s: State, result: Answer): State {
    var t :=
      if result.Successful? then Send(s.(authenticated := true), Success)
      else Send(if result.Partial? then s else s.(failCount := s.failCount + 1), Failure(result.Partial?));
    if t.failCount >= MAX_FAILURES then Drop(t) else t
  }

  /** The outcome of the method-specific part: None when another reply has been sent instead, or the
      connection dropped. */
  datatype Checked = Result(result: Answer) | Replied(out: Out) | Refused | Raised

  function CheckMethod(keys: Keys, sessionId: seq<byte>, e: Event): Checked
    requires e.UserauthRequest?
  {
    match e.how
    case NoneMethod => Result(e.answer)
    case Password(changereq) => Result(if changereq then Failed else e.answer)
    case PublicKey(sigAttached, algorithm, keyblob, sig) =>
      var key := keys.read(algorithm, keyblob);
      if key.None? then Refused
      else if e.answer.Failed? then Result(Failed)
      else if !sigAttached then Replied(PkOk)
      else
        var blob := SessionBlob(sessionId, e.username, e.authService, algorithm, key.value);
        if blob.None? then Raised
        else Result(if keys.verify(key.value, blob.value, sig) then e.answer else Failed)
    case Interactive => if e.answer.Query? then Replied(InfoRequest) else Result(e.answer)
    case Unknown => Result(e.answer)
  }

  function UserauthStep(keys: Keys, sessionId: seq<byte>, s: State, e: Event): State
    requires e.UserauthRequest?
  {
    if s.authenticated then s
    else if e.authService != SSH_CONNECTION then Drop(s)
    else if s.username.Some? && s.username.value != e.username then Drop(s)
    else
      var t := s.(username := Some(e.username));
      match CheckMethod(keys, sessionId, e)
      case Result(r) => SendAuthResult(t, r)
      case Replied(o) => Send(t, o)
      case Refused => Drop(t)
      case Raised => t.(active := false, channels := {})
  }

  function Step(keys: Keys, sessionId: seq<byte>, s: State, e: Event): State {
    if !s.active then s
    else
      match e
      case ServiceRequest(service) => if service == SSH_USERAUTH then Send(s, ServiceAccept) else Drop(s)
      case UserauthRequest(_, _, _, _) => UserauthStep(keys, sessionId, s, e)
      case InfoResponse(reply) => if reply.Query? then Send(s, InfoRequest) else SendAuthResult(s, reply)
      case GlobalRequest => Send(s, if s.authenticated then RequestAnswer else RequestFailure)
      case ChannelOpen(id, granted) =>
        if !s.authenticated || !granted then Send(s, OpenFailure)
        else Send(s.(channels := s.channels + {id}), OpenSuccess(id))
      case Hangup => s.(active := false, channels := {})
  }

  // ---------- the class ----------

  class AuthHandler {
    const keys: Keys
    const sessionId: seq<byte>
    var active: bool
    var authenticated: bool
    var authUsername: Option<seq<byte>>
    var authFailCount: nat
    var channels: set<nat>
    var sent: seq<Out>

    constructor (keys: Keys, sessionId: seq<byte>)
      ensures View() == Initial() && this.keys == keys && this.sessionId == sessionId
    {
      this.keys, this.sessionId := keys, sessionId;
      active, authenticated, authUsername, authFailCount, channels, sent := true, false, None, 0, {}, [];
    }

    function View(): State
      reads this
    {
      State(active, authenticated, authUsername, authFailCount, channels, sent)
    }

    method SendMessage(o: Out)
      modifies this`sent
      ensures sent == old(sent) + [o]
    {
      sent := sent + [o];
    }

    method DisconnectNoMoreAuth()
      modifies this`sent, this`active, this`channels
      ensures View() == Drop(old(View()))
    {
      SendMessage(Disconnect);
      active, channels := false, {};
    }

    method SendResult(result: Answer)
      modifies this
      ensures View() == SendAuthResult(old(View()), result)
      ensures authenticated == (old(authenticated) || result.Successful?) && authUsername == old(authUsername)
      ensures authFailCount == old(authFailCount) + if result.Successful? || result.Partial? then 0 else 1
      ensures authFailCount < 10 ==> active == old(active) && channels == old(channels)
      ensures authFailCount < 10 ==> sent == old(sent) + [if result.Successful? then Success else Failure(result.Partial?)]
      ensures authFailCount >= 10 ==> !active && channels == {}
      ensures authFailCount >= 10 ==>
        sent == old(sent) + [if result.Successful? then Success else Failure(result.Partial?), Disconnect]
    {
      var m: Out;
      if result.Successful? {
        m := Success;
        authenticated := true;
      } else {
        m := Failure(result.Partial?);
        if !result.Partial? {
          authFailCount := authFailCount + 1;
        }
      }
      SendMessage(m);
      if authFailCount >= MAX_FAILURES {
        DisconnectNoMoreAuth();
      }
    }

    method ParseUserauthRequest(username: seq<byte>, service: seq<byte>, how: Method, answer: Answer)
      requires active
      modifies this
      ensures View() == Step(keys, sessionId, old(View()), UserauthRequest(username, service, how, answer))
    {
      if authenticated {
        return;
      }
      if service != SSH_CONNECTION || (authUsername.Some? && authUsername.value != username) {
        DisconnectNoMoreAuth();
        return;
      }
      authUsername := Some(username);
      hide SessionBlob, SendAuthResult;
      var checked := CheckMethod(keys, sessionId, UserauthRequest(username, service, how, answer));
      match checked {
        case Result(r) => SendResult(r);
        case Replied(o) => SendMessage(o);
        case Refused => DisconnectNoMoreAuth();
        case Raised => active, channels := false, {};
      }
    }

    method ParseUserauthInfoResponse(reply: Answer)
      requires active
      modifies this
      ensures View() == Step(keys, sessionId, old(View()), InfoResponse(reply))
    {
      if reply.Query? {
        SendMessage(InfoRequest);
        return;
      }
      SendResult(reply);
    }

    /** _ensure_authed, then the handler: channel requests of an unauthenticated peer never reach it. */
    method ParseChannelOpen(id: nat, granted: bool)
      requires active
      modifies this
      ensures View() == Step(keys, sessionId, old(View()), ChannelOpen(id, granted))
    {
      if !authenticated {
        SendMessage(OpenFailure);
        return;
      }
      if !granted {
        SendMessage(OpenFailure);
        return;
      }
      channels := channels + {id};
      SendMessage(OpenSuccess(id));
    }
  }

  // ---------- what lets a peer in ----------

  /** The application said yes; for a public key, to a key the server can read, and the peer has signed
      this very session, user and key with it. */
  ghost predicate Vouched(keys: Keys, sessionId: seq<byte>, e: Event) {
    e.UserauthRequest? && e.answer.Successful?
    && match e.how
       case NoneMethod => true
       case Password(changereq) => !changereq
       case PublicKey(sigAttached, algorithm, keyblob, sig) =>
         var key := keys.read(algorithm, keyblob);
         sigAttached && key.Some?
         && var blob := SessionBlob(sessionId, e.username, e.authService, algorithm, key.value);
            blob.Some? && keys.verify(key.value, blob.value, sig)
       case Interactive => true
       case Unknown => true
  }

  /** The exact condition under which one message authenticates its sender. */
  ghost predicate Admits(keys: Keys, sessionId: seq<byte>, s: State, e: Event) {
    s.active && !s.authenticated
    && (|| (e.InfoResponse? && e.reply.Successful?)
        || (Vouched(keys, sessionId, e) && e.authService == SSH_CONNECTION
            && (s.username.None? || s.username.value == e.username)))
  }

  /** What the application or the signature check refuses. */
  ghost predicate Unconvincing(keys: Keys, sessionId: seq<byte>, e: Event)
    requires e.UserauthRequest?
  {
    var no := !e.answer.Successful? && !e.answer.Partial?;
    match e.how
    case NoneMethod => no
    case Password(changereq) => changereq || no
    case PublicKey(sigAttached, algorithm, keyblob, sig) =>
      var key := keys.read(algorithm, keyblob);
      key.Some?
      && (e.answer.Failed?
          || (sigAttached
              && var blob := SessionBlob(sessionId, e.username, e.authService, algorithm, key.value);
                 blob.Some? && (no || !keys.verify(key.value, blob.value, sig))))
    case Interactive => e.answer.Failed?
    case Unknown => no
  }

  /** A public key that cannot be read, or with which no blob can be written. */
  ghost predicate Unusable(keys: Keys, sessionId: seq<byte>, e: Event)
    requires e.UserauthRequest?
  {
    e.how.PublicKey?
    && var key := keys.read(e.how.algorithm, e.how.keyblob);
       key.None? || (!e.answer.Failed? && e.how.sigAttached
                     && SessionBlob(sessionId, e.username, e.authService, e.how.algorithm, key.value).None?)
  }

  ghost predicate Considered(s: State, e: Event)
    requires e.UserauthRequest?
  {
    !s.authenticated && e.authService == SSH_CONNECTION && (s.username.None? || s.username.value == e.username)
  }

  /** The exact condition under which one message is answered with a rejection, that is with a failure that
      is not a partial success. */
  ghost predicate Rejects(keys: Keys, sessionId: seq<byte>, s: State, e: Event) {
    s.active
    && (|| (e.InfoResponse? && e.reply.Failed?)
        || (e.UserauthRequest? && Considered(s, e) && Unconvincing(keys, sessionId, e)))
  }

  /** The exact condition under which one message ends an active connection. */
  ghost predicate Ends(keys: Keys, sessionId: seq<byte>, s: State, e: Event) {
    || e.Hangup?
    || (e.ServiceRequest? && e.service != SSH_USERAUTH)
    || (e.UserauthRequest? && !s.authenticated && !Considered(s, e))
    || (e.UserauthRequest? && Considered(s, e) && Unusable(keys, sessionId, e))
    || (Rejections(s.sent) == 9 && Rejects(keys, sessionId, s, e))
  }

  lemma CheckedIff(keys: Keys, sessionId: seq<byte>, e: Event)
    requires e.UserauthRequest?
    ensures var c := CheckMethod(keys, sessionId, e);
      && (Unconvincing(keys, sessionId, e) <==> c.Result? && !c.result.Successful? && !c.result.Partial?)
      && (Unusable(keys, sessionId, e) <==> c.Refused? || c.Raised?)
      && (c.Replied? ==> c.out == PkOk || c.out == InfoRequest)
  {
    hide SessionBlob;
  }

  /** How many rejections a peer has been sent. Partial successes are not among them. */
  function Rejections(sent: seq<Out>): nat {
    if sent == [] then 0
    else Rejections(sent[..|sent| - 1]) + if sent[|sent| - 1] == Failure(false) then 1 else 0
  }

  lemma RejectionsPush(sent: seq<Out>, o: Out)
    ensures Rejections(sent + [o]) == Rejections(sent) + if o == Failure(false) then 1 else 0
  {
    assert (sent + [o])[..|sent|] == sent;
  }

  /** The counter is the number of rejections sent; the tenth is followed by a disconnect, and nothing
      follows that. */
  ghost predicate Counted(s: State) {
    && s.failCount == Rejections(s.sent) <= 10
    && (s.active ==> Rejections(s.sent) < 10)
    && (Rejections(s.sent) == 10 ==>
        !s.active && |s.sent| >= 2 && s.sent[|s.sent| - 2..] == [Failure(false), Disconnect])
  }

  lemma ReplyCounted(s: State, o: Out)
    requires s.active && Counted(s) && o != Failure(false)
    ensures Counted(Send(s, o)) && Counted(Drop(s)) && Rejections(Send(s, o).sent) == Rejections(s.sent)
  {
    RejectionsPush(s.sent, o);
    RejectionsPush(s.sent, Disconnect);
    hide Rejections;
  }

  lemma ResultCounted(s: State, result: Answer)
    requires s.active && Counted(s)
    ensures var t := SendAuthResult(s, result);
      && Counted(t)
      && Rejections(t.sent) == Rejections(s.sent) + (if result.Successful? || result.Partial? then 0 else 1)
      && (t.active <==> Rejections(t.sent) < 10)
  {
    var o := if result.Successful? then Success else Failure(result.Partial?);
    RejectionsPush(s.sent, o);
    RejectionsPush(s.sent + [o], Disconnect);
    assert (s.sent + [o] + [Disconnect])[|s.sent|..] == [o, Disconnect];
    hide Rejections;
  }

  /** One message adds a rejection to what was sent in exactly the rejecting steps, one and no more, and ends
      the connection in exactly the ending ones: the tenth rejection is one of them. */
  lemma RejectedIff(keys: Keys, sessionId: seq<byte>, s: State, e: Event)
    requires s.active && Counted(s)
    ensures var t := Step(keys, sessionId, s, e);
      && Counted(t)
      && Rejections(t.sent) == Rejections(s.sent) + (if Rejects(keys, sessionId, s, e) then 1 else 0)
      && (!t.active <==> Ends(keys, sessionId, s, e))
  {
    hide Counted, Rejections, Rejects, Ends, UserauthStep, SendAuthResult;
    match e
    case UserauthRequest(_, _, _, _) => RequestRejectedIff(keys, sessionId, s, e);
    case InfoResponse(reply) => InfoRejectedIff(keys, sessionId, s, reply);
    case _ => OtherRejectedIff(keys, sessionId, s, e);
  }

  lemma InfoRejectedIff(keys: Keys, sessionId: seq<byte>, s: State, reply: Answer)
    requires s.active && Counted(s)
    ensures var e := InfoResponse(reply);
      var t := Step(keys, sessionId, s, e);
      && Counted(t)
      && Rejections(t.sent) == Rejections(s.sent) + (if Rejects(keys, sessionId, s, e) then 1 else 0)
      && (!t.active <==> Ends(keys, sessionId, s, e))
  {
    RejectionsPush(s.sent, InfoRequest);
    if !reply.Query? {
      ResultCounted(s, reply);
    }
    hide UserauthStep, SendAuthResult, Rejections;
  }

  lemma OtherRejectedIff(keys: Keys, sessionId: seq<byte>, s: State, e: Event)
    requires s.active && Counted(s) && !e.UserauthRequest? && !e.InfoResponse?
    ensures var t := Step(keys, sessionId, s, e);
      && Counted(t)
      && Rejections(t.sent) == Rejections(s.sent) && !Rejects(keys, sessionId, s, e)
      && (!t.active <==> Ends(keys, sessionId, s, e))
  {
    RejectionsPush(s.sent, Disconnect);
    RejectionsPush(s.sent, ServiceAccept);
    RejectionsPush(s.sent, if s.authenticated then RequestAnswer else RequestFailure);
    RejectionsPush(s.sent, OpenFailure);
    if e.ChannelOpen? {
      RejectionsPush(s.sent, OpenSuccess(e.id));
    }
    hide UserauthStep, SendAuthResult, Rejections;
  }

  lemma ConsideredIff(keys: Keys, sessionId: seq<byte>, s: State, e: Event)
    requires s.active && Counted(s) && e.UserauthRequest? && Considered(s, e)
    ensures var t := UserauthStep(keys, sessionId, s, e);
      && Counted(t)
      && Rejections(t.sent) == Rejections(s.sent) + (if Unconvincing(keys, sessionId, e) then 1 else 0)
      && (!t.active <==> Unusable(keys, sessionId, e) || (Rejections(s.sent) == 9 && Unconvincing(keys, sessionId, e)))
  {
    var u := s.(username := Some(e.username));
    RejectionsPush(s.sent, Disconnect);
    RejectionsPush(s.sent, PkOk);
    RejectionsPush(s.sent, InfoRequest);
    CheckedIff(keys, sessionId, e);
    hide CheckMethod, Unconvincing, Unusable, SendAuthResult, Rejections;
    var checked := CheckMethod(keys, sessionId, e);
    if checked.Result? {
      ResultCounted(u, checked.result);
    }
  }

  lemma RequestRejectedIff(keys: Keys, sessionId: seq<byte>, s: State, e: Event)
    requires s.active && Counted(s) && e.UserauthRequest?
    ensures var t := UserauthStep(keys, sessionId, s, e);
      && Counted(t)
      && Rejections(t.sent) == Rejections(s.sent) + (if Rejects(keys, sessionId, s, e) then 1 else 0)
      && (!t.active <==> Ends(keys, sessionId, s, e))
  {
    RejectionsPush(s.sent, Disconnect);
    if Considered(s, e) {
      ConsideredIff(keys, sessionId, s, e);
    }
    hide CheckMethod, Unconvincing, Unusable, SendAuthResult, Rejections;
  }

  ghost predicate Inv(s: State) {
    && Counted(s)
    && (s.channels != {} ==> s.authenticated && s.active)
    && (Success in s.sent ==> s.authenticated)
  }

  /** authenticated is set in exactly the admitting steps and never unset. */
  lemma AuthenticatedIff(keys: Keys, sessionId: seq<byte>, s: State, e: Event)
    ensures Step(keys, sessionId, s, e).authenticated <==> s.authenticated || Admits(keys, sessionId, s, e)
  {
    hide SessionBlob;
  }

  lemma StepKeepsInv(keys: Keys, sessionId: seq<byte>, s: State, e: Event)
    requires Inv(s)
    ensures Inv(Step(keys, sessionId, s, e))
  {
    SentGrows(keys, sessionId, s, e);
    ChannelsNeedAuth(keys, sessionId, s, e);
    AuthenticatedIff(keys, sessionId, s, e);
    if s.active {
      RejectedIff(keys, sessionId, s, e);
    } else {
      Ended(keys, sessionId, s, e);
    }
    hide SessionBlob, Rejections, Rejects, Ends, Counted, Step;
  }

  lemma ChannelsNeedAuth(keys: Keys, sessionId: seq<byte>, s: State, e: Event)
    requires s.channels != {} ==> s.authenticated && s.active
    ensures var t := Step(keys, sessionId, s, e); t.channels != {} ==> t.authenticated && t.active
  {
    hide SessionBlob;
  }

  /** One message adds a Success only if it authenticates. */
  lemma SentGrows(keys: Keys, sessionId: seq<byte>, s: State, e: Event)
    ensures var t := Step(keys, sessionId, s, e); Success in t.sent ==> Success in s.sent || t.authenticated
  {
    hide SessionBlob;
  }

  /** The first request for the connection service settles the username, whatever becomes of it. */
  lemma UsernameIsSettled(keys: Keys, sessionId: seq<byte>, s: State, e: Event)
    ensures Step(keys, sessionId, s, e).username
         == if s.active && e.UserauthRequest? && !s.authenticated && e.authService == Ascii("ssh-connection") && s.username.None?
            then Some(e.username) else s.username
  {
    hide SessionBlob, Ascii;
  }

  /** A channel is opened exactly when its sender is authenticated and the application grants it; a global request
      reaches the application exactly when its sender is authenticated. Nothing else changes. */
  lemma OnlyForAuthenticated(keys: Keys, sessionId: seq<byte>, s: State, e: Event)
    requires s.active && (e.ChannelOpen? || e.GlobalRequest?)
    ensures var t := Step(keys, sessionId, s, e);
      var ok := s.authenticated && (e.ChannelOpen? ==> e.granted);
      && t.channels == s.channels + (if e.ChannelOpen? && ok then {e.id} else {})
      && t.sent == s.sent + [if e.GlobalRequest? then (if ok then RequestAnswer else RequestFailure)
                             else if ok then OpenSuccess(e.id) else OpenFailure]
      && t == s.(channels := t.channels, sent := t.sent)
  {
    hide UserauthStep, SendAuthResult;
  }

  /** A username, once set, is the only one. */
  lemma UsernameIsFixed(keys: Keys, sessionId: seq<byte>, s: State, e: Event)
    requires s.username.Some?
    ensures Step(keys, sessionId, s, e).username == s.username
  {
    hide SessionBlob;
  }

  // ---------- whole runs ----------

  function RunAll(keys: Keys, sessionId: seq<byte>, events: seq<Event>): State {
    if events == [] then Initial()
    else Step(keys, sessionId, RunAll(keys, sessionId, events[..|events| - 1]), events[|events| - 1])
  }

  lemma {:induction false} RunKeepsInv(keys: Keys, sessionId: seq<byte>, events: seq<Event>)
    ensures Inv(RunAll(keys, sessionId, events))
  {
    if events != [] {
      var before := events[..|events| - 1];
      RunKeepsInv(keys, sessionId, before);
      StepKeepsInv(keys, sessionId, RunAll(keys, sessionId, before), events[|events| - 1]);
    }
    hide Step, Inv;
  }

  /** How many messages of a run are to be answered with a rejection. */
  ghost function RejectedIn(keys: Keys, sessionId: seq<byte>, events: seq<Event>): nat {
    if events == [] then 0
    else
      var n := |events| - 1;
      RejectedIn(keys, sessionId, events[..n])
      + if Rejects(keys, sessionId, RunAll(keys, sessionId, events[..n]), events[n]) then 1 else 0
  }

  /** Every rejected request is told so: over any run the rejections sent are the messages that deserved one. */
  lemma {:induction false} EveryRejectionIsSent(keys: Keys, sessionId: seq<byte>, events: seq<Event>)
    ensures Rejections(RunAll(keys, sessionId, events).sent) == RejectedIn(keys, sessionId, events)
  {
    if events != [] {
      var n := |events| - 1;
      var s := RunAll(keys, sessionId, events[..n]);
      EveryRejectionIsSent(keys, sessionId, events[..n]);
      RunKeepsInv(keys, sessionId, events[..n]);
      if s.active {
        RejectedIff(keys, sessionId, s, events[n]);
      } else {
        Ended(keys, sessionId, s, events[n]);
      }
    }
    hide Step, Rejects, Rejections, Ends;
  }

  lemma Ended(keys: Keys, sessionId: seq<byte>, s: State, e: Event)
    requires !s.active
    ensures Step(keys, sessionId, s, e) == s && !Rejects(keys, sessionId, s, e)
  {
    hide UserauthStep, SendAuthResult, Unconvincing;
  }

  lemma RunStep(keys: Keys, sessionId: seq<byte>, events: seq<Event>, i: nat)
    requires i < |events|
    ensures RunAll(keys, sessionId, events[..i + 1]) == Step(keys, sessionId, RunAll(keys, sessionId, events[..i]), events[i])
  {
    assert events[..i + 1][..i] == events[..i];
  }

  /** The i-th message of a run is the one that lets its sender in. */
  ghost predicate AdmittedAt(keys: Keys, sessionId: seq<byte>, events: seq<Event>, i: nat) {
    i < |events| && Admits(keys, sessionId, RunAll(keys, sessionId, events[..i]), events[i])
  }

  lemma AdmittedEarlier(keys: Keys, sessionId: seq<byte>, events: seq<Event>, i: nat)
    requires i < |events| - 1
    ensures AdmittedAt(keys, sessionId, events, i) <==> AdmittedAt(keys, sessionId, events[..|events| - 1], i)
  {
    assert events[..|events| - 1][..i] == events[..i];
    hide Admits, RunAll;
  }

  lemma {:induction false} AuthenticatedRun(keys: Keys, sessionId: seq<byte>, events: seq<Event>)
    ensures RunAll(keys, sessionId, events).authenticated <==> exists i: nat :: AdmittedAt(keys, sessionId, events, i)
  {
    if events != [] {
      var n := |events| - 1;
      var before := events[..n];
      AuthenticatedRun(keys, sessionId, before);
      AuthenticatedIff(keys, sessionId, RunAll(keys, sessionId, before), events[n]);
      assert AdmittedAt(keys, sessionId, events, n) <==> Admits(keys, sessionId, RunAll(keys, sessionId, before), events[n]);
      forall i: nat | i < n ensures AdmittedAt(keys, sessionId, events, i) <==> AdmittedAt(keys, sessionId, before, i) {
        AdmittedEarlier(keys, sessionId, events, i);
      }
      assert forall i: nat :: AdmittedAt(keys, sessionId, before, i) ==> i < n;
      assert forall i: nat :: AdmittedAt(keys, sessionId, events, i) ==> i <= n;
      assert RunAll(keys, sessionId, events) == Step(keys, sessionId, RunAll(keys, sessionId, before), events[n]);
      hide Step, Admits, AdmittedAt, RunAll;
    }
  }

  /** Over any run: whoever is authenticated was admitted by one particular message; no peer has a channel
      without being authenticated; and an active connection has sent fewer than ten rejections. Nobody is
      sent more than ten: the tenth is followed by the disconnect, and that by nothing. */
  lemma RunIsSafe(keys: Keys, sessionId: seq<byte>, events: seq<Event>)
    ensures var s := RunAll(keys, sessionId, events);
      && (s.authenticated <==> exists i: nat :: AdmittedAt(keys, sessionId, events, i))
      && (s.active ==> Rejections(s.sent) < 10)
      && Rejections(s.sent) <= 10
      && (Rejections(s.sent) == 10 ==>
          !s.active && |s.sent| >= 2 && s.sent[|s.sent| - 2..] == [Failure(false), Disconnect])
      && (s.channels != {} ==> s.authenticated)
      && (Success in s.sent ==> s.authenticated)
  {
    RunKeepsInv(keys, sessionId, events);
    AuthenticatedRun(keys, sessionId, events);
  }

  lemma {:induction false} RunFixesUsername(keys: Keys, sessionId: seq<byte>, events: seq<Event>, i: nat)
    requires i <= |events|
    ensures var early := RunAll(keys, sessionId, events[..i]).username;
      early.Some? ==> RunAll(keys, sessionId, events).username == early
    decreases |events|
  {
    if i == |events| {
      assert events[..i] == events;
    } else {
      var before := events[..|events| - 1];
      RunFixesUsername(keys, sessionId, before, i);
      assert before[..i] == events[..i];
      hide Step;
      var b := RunAll(keys, sessionId, before);
      if b.username.Some? {
        UsernameIsFixed(keys, sessionId, b, events[|events| - 1]);
      }
    }
  }

  /** The channel requests of a peer that is not authenticated are all refused. */
  lemma NoChannelBeforeAuth(keys: Keys, sessionId: seq<byte>, events: seq<Event>, i: nat)
    requires i < |events| && events[i].ChannelOpen?
    requires RunAll(keys, sessionId, events[..i]).active && !RunAll(keys, sessionId, events[..i]).authenticated
    ensures var s, t := RunAll(keys, sessionId, events[..i]), RunAll(keys, sessionId, events[..i + 1]);
      t == Send(s, OpenFailure) && t.channels == {}
  {
    RunKeepsInv(keys, sessionId, events[..i]);
    RunStep(keys, sessionId, events, i);
  }

  /** An info response is taken at any time: nobody has to have asked for one, nor given a name. So
      what protects a server that answers Successful here is only its own callback. */
  lemma UnaskedInfoResponse(keys: Keys, sessionId: seq<byte>)
    ensures var t := RunAll(keys, sessionId, [InfoResponse(Successful)]);
      t.authenticated && t.username.None? && Success in t.sent
  {
    RunStep(keys, sessionId, [InfoResponse(Successful)], 0);
    var one := [InfoResponse(Successful)];
    assert one[..1] == one && one[..0] == [];
    var t := SendAuthResult(Initial(), Successful);
    assert t.sent[0] == Success;
  }
}
