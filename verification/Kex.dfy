/** The exchange hash and its messages, shared by the Diffie-Hellman key exchanges. */
module KexCommon {
  import opened Bytes
  import opened Messages
  import opened DiffieHellman
  import opened Options
  import opened KeyDerivation
  import Util

  /** Raised is an SSHException or struct.error; Drawing means _generate_x has not returned yet. */
  datatype Outcome = Completed | Raised | Drawing

  predicate Short(b: seq<byte>) {
    |b| < 0x1_0000_0000
  }

  /** What goes into the exchange hash: the identification strings, the two KEXINIT messages and
      the host key, the negotiated sizes if any, and the numbers, p and g first if they were sent. */
  datatype Transcript = Transcript(clientVersion: seq<byte>, serverVersion: seq<byte>,
                                   clientKexInit: seq<byte>, serverKexInit: seq<byte>,
                                   hostKey: seq<byte>, sizes: seq<int>, numbers: seq<int>)

  function Ints(l: seq<int>): (r: seq<Item>)
    ensures |r| == |l| && forall i :: 0 <= i < |l| ==> r[i] == Int(l[i])
  {
    seq(|l|, i requires 0 <= i < |l| => Int(l[i]))
  }

  function Mpints(l: seq<int>): (r: seq<Item>)
    ensures |r| == |l| && forall i :: 0 <= i < |l| ==> r[i] == Mpint(l[i])
  {
    seq(|l|, i requires 0 <= i < |l| => Mpint(l[i]))
  }

  function HashItems(t: Transcript): seq<Item> {
    [Str(t.clientVersion), Str(t.serverVersion), Str(t.clientKexInit), Str(t.serverKexInit), Str(t.hostKey)]
    + Ints(t.sizes) + Mpints(t.numbers)
  }

  lemma {:induction false} SameEncodingSameItems(a: seq<Item>, b: seq<Item>)
    requires AllEncodable(a) && AllEncodable(b) && AllPlain(a) && AllPlain(b)
    requires Kinds(a) == Kinds(b) && EncodeAll(a) == EncodeAll(b)
    ensures a == b
  {
    var e := EncodeAll(a);
    assert IsAt(e, 0, e);
    hide AllEncodable, AllPlain, Kinds, EncodeAll, DecodeAll;
    RoundTrip(a, e, 0);
    RoundTrip(b, e, 0);
  }

  lemma HashItemsAt(t: Transcript)
    ensures var r := HashItems(t);
      && |r| == 5 + |t.sizes| + |t.numbers| && AllPlain(r)
      && r[0] == Str(t.clientVersion) && r[1] == Str(t.serverVersion) && r[2] == Str(t.clientKexInit)
      && r[3] == Str(t.serverKexInit) && r[4] == Str(t.hostKey)
      && (forall i :: 5 <= i < 5 + |t.sizes| ==> r[i] == Int(t.sizes[i - 5]))
      && (forall i :: 5 + |t.sizes| <= i < |r| ==> r[i] == Mpint(t.numbers[i - 5 - |t.sizes|]))
  {
  }

  lemma TranscriptFromItems(a: Transcript, b: Transcript)
    requires |a.sizes| == |b.sizes| && |a.numbers| == |b.numbers|
    requires HashItems(a) == HashItems(b)
    ensures a == b
  {
    var x, y := HashItems(a), HashItems(b);
    HashItemsAt(a);
    HashItemsAt(b);
    hide HashItems, AllPlain;
    forall i | 0 <= i < |a.sizes| ensures a.sizes[i] == b.sizes[i] {
      assert x[5 + i] == y[5 + i];
    }
    forall i | 0 <= i < |a.numbers| ensures a.numbers[i] == b.numbers[i] {
      assert x[5 + |a.sizes| + i] == y[5 + |a.sizes| + i];
    }
  }

  /** Nothing in the exchange hash is ambiguous: transcripts of the same shape that hash the same
      bytes agree in every version string, KEXINIT, key and number. */
  lemma TranscriptInjective(a: Transcript, b: Transcript)
    requires |a.sizes| == |b.sizes| && |a.numbers| == |b.numbers|
    requires AllEncodable(HashItems(a)) && AllEncodable(HashItems(b))
    requires EncodeAll(HashItems(a)) == EncodeAll(HashItems(b))
    ensures a == b
  {
    var x, y := HashItems(a), HashItems(b);
    HashItemsAt(a);
    HashItemsAt(b);
    KindsByItem(x);
    KindsByItem(y);
    hide HashItems, Kinds, AllPlain, AllEncodable, EncodeAll;
    forall i | 0 <= i < |x| ensures Kinds(x)[i] == Kinds(y)[i] {
      if i >= 5 + |a.sizes| {
        assert x[i].Mpint? && y[i].Mpint?;
      } else if i >= 5 {
        assert x[i].Int? && y[i].Int?;
      }
    }
    SameEncodingSameItems(x, y);
    TranscriptFromItems(a, b);
  }

  // ---------- reading the messages ----------

  function ReadMpints(body: seq<byte>): (int, int) {
    var (a, p) := ReadString(body, 0);
    (Signed(a), Signed(ReadString(body, p).0))
  }

  function ReadReply(body: seq<byte>): (seq<byte>, int, seq<byte>) {
    var (key, p) := ReadString(body, 0);
    var (f, q) := ReadString(body, p);
    (key, Signed(f), ReadString(body, q).0)
  }

  function MpintBytes(n: int): seq<byte>
    requires Fits(n)
  {
    EncodeString(Util.Mpint(n))
  }

  function ReplyBytes(key: seq<byte>, f: int, sig: seq<byte>): seq<byte>
    requires Short(key) && Fits(f) && Short(sig)
  {
    EncodeString(key) + MpintBytes(f) + EncodeString(sig)
  }

  /** Sections 8 of RFC 4253 and 5.2 of RFC 4419: a reply is three strings, of which the second is a number. */
  lemma ReplyLayout(key: seq<byte>, f: int, sig: seq<byte>)
    requires Short(key) && Fits(f) && Short(sig)
    ensures exists a, b, c ::
      && ReplyBytes(key, f, sig) == a + b + c
      && StringField(a, key) && MpintField(b, f) && StringField(c, sig)
  {
    StringLayout(key);
    MpintLayout(f);
    StringLayout(sig);
    hide StringField, MpintField, EncodeString;
    assert ReplyBytes(key, f, sig) == EncodeString(key) + MpintBytes(f) + EncodeString(sig);
  }

  /** The reader finds what the sender wrote. */
  lemma MpintArrives(n: int)
    requires Fits(n)
    ensures Signed(ReadString(MpintBytes(n), 0).0) == n
  {
    ReadExactString(MpintBytes(n), 0, Util.Mpint(n));
    Util.MpintValue(n);
  }

  lemma ReadAfter(before: seq<byte>, x: seq<byte>, after: seq<byte>)
    requires Short(x)
    ensures ReadString(before + (EncodeString(x) + after), |before|) == (x, |before| + |EncodeString(x)|)
  {
    var m := before + (EncodeString(x) + after);
    assert m[|before|..|before| + |EncodeString(x)|] == EncodeString(x);
    ReadExactString(m, |before|, x);
  }

  lemma Associate(a: seq<byte>, b: seq<byte>, c: seq<byte>)
    ensures a + b + c == a + (b + c) == [] + (a + (b + c)) == (a + b) + (c + [])
    ensures [] + (a + b) == a + b == a + (b + [])
  {
  }

  lemma GroupArrives(p: int, g: int)
    requires Fits(p) && Fits(g)
    ensures ReadMpints(MpintBytes(p) + MpintBytes(g)) == (p, g)
  {
    Util.MpintValue(p);
    Util.MpintValue(g);
    var a, b := Util.Mpint(p), Util.Mpint(g);
    hide ReadString, EncodeString, Signed;
    ReadAfter([], a, EncodeString(b));
    ReadAfter(EncodeString(a), b, []);
    Associate(EncodeString(a), EncodeString(b), []);
  }

  lemma ReplyArrives(key: seq<byte>, f: int, sig: seq<byte>)
    requires Short(key) && Fits(f) && Short(sig)
    ensures ReadReply(ReplyBytes(key, f, sig)) == (key, f, sig)
  {
    Util.MpintValue(f);
    var n := Util.Mpint(f);
    hide ReadString, EncodeString, Signed;
    var a, b, c := EncodeString(key), EncodeString(n), EncodeString(sig);
    Associate(a, b, c);
    ReadAfter([], key, b + c);
    ReadAfter(a, n, c);
    ReadAfter(a + b, sig, []);
  }

  /** Whatever is read with get_string or get_mpint could be written again. */
  lemma WhatIsReadFits(content: seq<byte>, pos: nat)
    requires pos <= |content|
    ensures Short(ReadString(content, pos).0) && Fits(Signed(ReadString(content, pos).0))
  {
    var (len, p) := ReadBytes(content, pos, 4);
    BEBound(len);
    Pow256Four();
    var s := ReadString(content, pos).0;
    if s == [] {
      assert Util.Mpint(0) == [0];
    } else {
      Util.MpintIsShortest(s);
    }
  }

  /** A number no larger than one that fits, fits. */
  lemma SmallerFits(a: int, p: int)
    requires 0 <= a <= p && Fits(p)
    ensures Fits(a)
  {
    var m := Util.Mpint(p);
    Util.MpintValue(p);
    BEFirst(m);
    BEBound(m);
    var t := ToBE(a, |m|);
    ToBERoundTrip(a, |m|);
    BEFirst(t);
    BEBound(m[1..]);
    SmallHead(t[0], BE(t[1..]), m[0], BE(m[1..]), Pow256(|m| - 1));
    Util.MpintIsShortest(t);
  }

  lemma SmallHead(h: int, t: int, h2: int, t2: int, w: int)
    requires w > 0 && 0 <= t && 0 <= t2 < w && h * w + t <= h2 * w + t2
    ensures h <= h2
  {
    assert (h - h2) * w == h * w - h2 * w;
    LessThanOne(h - h2, w);
  }

  // ---------- what an exchange comes to ----------

  /** The part of a transport that both ends have in common. */
  datatype Context = Context(clientVersion: seq<byte>, serverVersion: seq<byte>, clientKexInit: seq<byte>,
                             serverKexInit: seq<byte>, hash: Hash, sid: Option<seq<byte>>)

  function ContextOf(t: Transport): Context
    reads t
  {
    if t.serverMode then
      Context(t.remoteVersion, t.localVersion, t.remoteKexInit, t.localKexInit, t.hash, t.sessionId)
    else
      Context(t.localVersion, t.remoteVersion, t.localKexInit, t.remoteKexInit, t.hash, t.sessionId)
  }

  function TranscriptOf(c: Context, hostKey: seq<byte>, sizes: seq<int>, numbers: seq<int>): Transcript {
    Transcript(c.clientVersion, c.serverVersion, c.clientKexInit, c.serverKexInit, hostKey, sizes, numbers)
  }

  /** The secret of an exchange whose hash is taken over the given values; None where one of them
      is too long to write. The last number is K itself. */
  function Reached(c: Context, hostKey: seq<byte>, sizes: seq<int>, numbers: seq<int>, k: int): (r: Option<Secret>)
    ensures r.Some? ==> r.value.k == k && r.value.hash == c.hash
  {
    var items := HashItems(TranscriptOf(c, hostKey, sizes, numbers + [k]));
    if AllEncodable(items) then
      var h := c.hash(EncodeAll(items));
      Some(Secret(c.hash, k, h, if c.sid.Some? then c.sid.value else h))
    else None
  }

  /** Section 8 of RFC 4253 and section 3 of RFC 4419: what is hashed. */
  ghost predicate HashInput(b: seq<byte>, clientVersion: seq<byte>, serverVersion: seq<byte>, clientKexInit: seq<byte>,
                            serverKexInit: seq<byte>, hostKey: seq<byte>, sizes: seq<int>, numbers: seq<int>)
  {
    && Short(clientVersion) && Short(serverVersion) && Short(clientKexInit) && Short(serverKexInit) && Short(hostKey)
    && AllEncodable(Ints(sizes)) && AllEncodable(Mpints(numbers))
    && b == EncodeString(clientVersion) + EncodeString(serverVersion) + EncodeString(clientKexInit)
            + EncodeString(serverKexInit) + EncodeString(hostKey) + EncodeAll(Ints(sizes)) + EncodeAll(Mpints(numbers))
  }

  lemma EncodeFirst(i: Item, rest: seq<Item>)
    requires AllEncodable([i] + rest)
    ensures Encodable(i) && AllEncodable(rest) && EncodeAll([i] + rest) == Encode(i) + EncodeAll(rest)
  {
    var l := [i] + rest;
    assert l[0] == i && l[1..] == rest;
    assert forall k :: 0 <= k < |rest| ==> rest[k] == l[k + 1];
    hide Encode, Encodable;
  }

  lemma StringFirst(s: seq<byte>, rest: seq<Item>)
    requires AllEncodable([Str(s)] + rest)
    ensures Short(s) && AllEncodable(rest) && EncodeAll([Str(s)] + rest) == EncodeString(s) + EncodeAll(rest)
  {
    EncodeFirst(Str(s), rest);
    hide EncodeAll, AllEncodable, EncodeString;
  }

  lemma Parts(a: seq<Item>, b: seq<Item>)
    requires AllEncodable(a + b)
    ensures AllEncodable(a) && AllEncodable(b) && EncodeAll(a + b) == EncodeAll(a) + EncodeAll(b)
  {
    var l := a + b;
    assert forall k :: 0 <= k < |a| ==> a[k] == l[k];
    assert forall k :: 0 <= k < |b| ==> b[k] == l[|a| + k];
    hide Encodable, EncodeAll;
    EncodeAllAppend(a, b);
  }

  lemma StringsEncode(a: seq<byte>, b: seq<byte>, c: seq<byte>, d: seq<byte>, e: seq<byte>, rest: seq<Item>)
    requires AllEncodable([Str(a), Str(b), Str(c), Str(d), Str(e)] + rest)
    ensures Short(a) && Short(b) && Short(c) && Short(d) && Short(e) && AllEncodable(rest)
    ensures EncodeAll([Str(a), Str(b), Str(c), Str(d), Str(e)] + rest)
         == EncodeString(a) + (EncodeString(b) + (EncodeString(c) + (EncodeString(d) + (EncodeString(e) + EncodeAll(rest)))))
  {
    hide *;
    var r1 := [Str(e)] + rest;
    var r2 := [Str(d)] + r1;
    var r3 := [Str(c)] + r2;
    var r4 := [Str(b)] + r3;
    assert [Str(a), Str(b), Str(c), Str(d), Str(e)] + rest == [Str(a)] + r4;
    StringFirst(a, r4);
    StringFirst(b, r3);
    StringFirst(c, r2);
    StringFirst(d, r1);
    StringFirst(e, rest);
  }

  lemma SevenParts(a: seq<byte>, b: seq<byte>, c: seq<byte>, d: seq<byte>, e: seq<byte>, f: seq<byte>, g: seq<byte>)
    ensures a + (b + (c + (d + (e + (f + g))))) == a + b + c + d + e + f + g
  {
    assert e + (f + g) == e + f + g;
    assert d + (e + f + g) == d + e + f + g;
    assert c + (d + e + f + g) == c + d + e + f + g;
    assert b + (c + d + e + f + g) == b + c + d + e + f + g;
  }

  lemma TranscriptLayout(t: Transcript)
    requires AllEncodable(HashItems(t))
    ensures HashInput(EncodeAll(HashItems(t)), t.clientVersion, t.serverVersion, t.clientKexInit, t.serverKexInit,
                      t.hostKey, t.sizes, t.numbers)
  {
    var ints, mpints := Ints(t.sizes), Mpints(t.numbers);
    var five := [Str(t.clientVersion), Str(t.serverVersion), Str(t.clientKexInit), Str(t.serverKexInit), Str(t.hostKey)];
    assert HashItems(t) == five + (ints + mpints);
    hide EncodeAll, AllEncodable, EncodeString, Ints, Mpints, Short;
    StringsEncode(t.clientVersion, t.serverVersion, t.clientKexInit, t.serverKexInit, t.hostKey, ints + mpints);
    Parts(ints, mpints);
    SevenParts(EncodeString(t.clientVersion), EncodeString(t.serverVersion), EncodeString(t.clientKexInit),
               EncodeString(t.serverKexInit), EncodeString(t.hostKey), EncodeAll(ints), EncodeAll(mpints));
  }

  /** The transport holds the exchange hash of its own and the peer's versions and KEXINIT messages, the client's
      first whichever end it is, and of the other values. */
  ghost predicate HashIsOf(t: Transport, hostKey: seq<byte>, sizes: seq<int>, numbers: seq<int>)
    reads t`h, t`hash, t`localKexInit, t`remoteKexInit
  {
    exists b ::
      && t.h == t.hash(b)
      && if t.serverMode
         then HashInput(b, t.remoteVersion, t.localVersion, t.remoteKexInit, t.localKexInit, hostKey, sizes, numbers)
         else HashInput(b, t.localVersion, t.remoteVersion, t.localKexInit, t.remoteKexInit, hostKey, sizes, numbers)
  }

  /** The signer on the server's side and its check on the client's. */
  type Signer = seq<byte> -> seq<byte>
  type Verifier = (seq<byte>, seq<byte>, seq<byte>) -> bool

  ghost predicate SameSetup(t: Transport, localSuite: Suite, remoteSuite: Suite, hash: Hash)
    reads t
  {
    t.localSuite == localSuite && t.remoteSuite == remoteSuite && t.hash == hash
  }

  /** Hash the transcript and keep the result: the common part of every handler that ends an exchange. */
  method Conclude(t: Transport, hostKey: seq<byte>, sizes: seq<int>, numbers: seq<int>, k: int) returns (ok: bool)
    requires t.Valid()
    modifies t`k, t`h, t`sessionId
    ensures t.Valid()
    ensures ok == old(Reached(ContextOf(t), hostKey, sizes, numbers, k)).Some?
    ensures ok ==> t.k.Some? && Some(t.CurrentSecret()) == old(Reached(ContextOf(t), hostKey, sizes, numbers, k))
    ensures ok ==> t.k == Some(k) && HashIsOf(t, hostKey, sizes, numbers + [k])
    ensures ok ==> t.sessionId == if old(t.sessionId).None? then Some(t.h) else old(t.sessionId)
  {
    var items := HashItems(TranscriptOf(ContextOf(t), hostKey, sizes, numbers + [k]));
    LastItem(TranscriptOf(ContextOf(t), hostKey, sizes, numbers + [k]));
    hide HashItems;
    ok := AllEncodable(items);
    if ok {
      assert Encodable(items[|items| - 1]);
      TranscriptLayout(TranscriptOf(ContextOf(t), hostKey, sizes, numbers + [k]));
      hide HashInput, EncodeAll;
      t.SetKH(k, t.hash(EncodeAll(items)));
    }
  }

  /** The server's reply: host key, public value and signed hash, then NEWKEYS and the outbound switch. */
  method SendReply(t: Transport, reply: byte, hostKey: seq<byte>, f: int, sign: Signer) returns (ok: bool)
    requires t.Valid() && t.k.Some? && t.serverMode && Fits(f)
    modifies t`outbox, t`outKeys, t`expected
    ensures t.Valid() && ok == (Short(hostKey) && Short(sign(t.h)))
    ensures ok ==> t.outbox == old(t.outbox) + [[reply] + ReplyBytes(hostKey, f, sign(t.h)), [NEWKEYS]]
    ensures ok ==> t.outKeys == Some(ServerToClient(t.CurrentSecret(), t.localSuite))
    ensures ok ==> t.expected == {NEWKEYS as int}
  {
    hide ReplyBytes, ServerToClient;
    var sig := sign(t.h);
    if !Short(hostKey) || !Short(sig) {
      return false;
    }
    t.SendMessage([reply] + ReplyBytes(hostKey, f, sig));
    t.ActivateOutbound();
    ok := true;
  }

  /** Each direction's keys of the given secret, and its session id. */
  ghost predicate HoldsKeys(t: Transport, secret: Secret)
    requires Fits(secret.k)
    reads t
  {
    && t.sessionId == Some(secret.sid)
    && t.outKeys == Some(if t.serverMode then ServerToClient(secret, t.localSuite) else ClientToServer(secret, t.localSuite))
    && t.inKeys == Some(if t.serverMode then ClientToServer(secret, t.remoteSuite) else ServerToClient(secret, t.remoteSuite))
  }

  /** Each end gets the other's NEWKEYS. */
  method SwitchBoth(c: Transport, s: Transport, ghost secretC: Secret, ghost secretS: Secret)
    requires c != s && c.Valid() && s.Valid() && !c.serverMode && s.serverMode
    requires c.k.Some? && s.k.Some? && secretC == c.CurrentSecret() && secretS == s.CurrentSecret()
    requires c.outKeys == Some(ClientToServer(secretC, c.localSuite))
    requires s.outKeys == Some(ServerToClient(secretS, s.localSuite))
    modifies c`inKeys, c`k, c`localKexInit, c`remoteKexInit, s`inKeys, s`k, s`localKexInit, s`remoteKexInit
    ensures HoldsKeys(c, secretC) && HoldsKeys(s, secretS)
  {
    hide ClientToServer, ServerToClient;
    var ok := c.ParseNewkeys();
    ok := s.ParseNewkeys();
  }

  lemma LastItem(t: Transcript)
    requires t.numbers != []
    ensures var r := HashItems(t); r != [] && r[|r| - 1] == Mpint(t.numbers[|t.numbers| - 1])
  {
  }
}

/** paramiko/kex_group14.py: Diffie-Hellman with a fixed group. */
module KexGroup14 {
  import opened Bytes
  import opened Messages
  import opened DiffieHellman
  import opened Options
  import opened KeyDerivation
  import opened KexCommon
  import Util

  const KEXDH_INIT: byte := 30
  const KEXDH_REPLY: byte := 31

  class KexGroup {
    const transport: Transport
    const p: int
    const g: int
    var x: nat
    var e: int
    var f: int

    constructor (transport: Transport, p: int, g: int)
      ensures this.transport == transport && this.p == p && this.g == g
    {
      this.transport, this.p, this.g := transport, p, g;
      x, e, f := 0, 0, 0;
    }

    method StartKex(draws: seq<seq<byte>>) returns (r: Outcome)
      requires LargePrime(p) && p > 0 && Fits(p)
      requires forall i :: 0 <= i < |draws| ==> |draws[i]| == 128
      requires transport.Valid()
      modifies this, transport`outbox, transport`expected
      ensures transport.Valid()
      ensures r == if Drawable(draws) then Completed else Drawing
      ensures r.Completed? ==> 1 < x < (p - 1) / 2 && GroupFirst(draws, x)
      ensures r.Completed? && transport.serverMode ==> f == ModPow(g, x, p)
      ensures r.Completed? && !transport.serverMode ==> e == ModPow(g, x, p) && Fits(e)
      ensures r.Completed? ==>
        if transport.serverMode then
          transport.outbox == old(transport.outbox) && transport.expected == {KEXDH_INIT as int}
        else
          transport.outbox == old(transport.outbox) + [[KEXDH_INIT] + MpintBytes(e)]
          && transport.expected == {KEXDH_REPLY as int}
    {
      var drawn := GroupGenerateX(draws, p);
      if drawn.None? {
        return Drawing;
      }
      x := drawn.value;
      if transport.serverMode {
        f := ModPow(g, x, p);
        transport.expected := {KEXDH_INIT as int};
      } else {
        e := ModPow(g, x, p);
        SmallerFits(e, p);
        transport.SendMessage([KEXDH_INIT] + MpintBytes(e));
        transport.expected := {KEXDH_REPLY as int};
      }
      r := Completed;
    }

    /** The server: secret, hash, signature, reply, and the outbound switch, in that order. */
    method ParseKexdhInit(m: seq<byte>, hostKey: seq<byte>, sign: Signer) returns (r: Outcome)
      requires p > 0 && Fits(p) && transport.Valid() && transport.serverMode && 0 <= f < p
      modifies this`e, transport
      ensures transport.Valid() && SameSetup(transport, old(transport.localSuite), old(transport.remoteSuite), old(transport.hash))
      ensures e == Signed(ReadString(m, 0).0) && !r.Drawing?
      ensures r.Completed? <==>
        var s := old(ServerSecret(m, hostKey)); 1 <= e <= p - 1 && Short(hostKey) && s.Some? && Short(sign(s.value.h))
      ensures r.Completed? ==> transport.k.Some? && Some(transport.CurrentSecret()) == old(ServerSecret(m, hostKey))
      ensures r.Completed? ==> HashIsOf(transport, hostKey, [], [e, f, ModPow(e, x, p)])
      ensures r.Completed? ==>
        Fits(f) && transport.outbox == old(transport.outbox) + [[KEXDH_REPLY] + ReplyBytes(hostKey, f, sign(transport.h)), [NEWKEYS]]
      ensures r.Completed? ==> transport.outKeys == Some(ServerToClient(transport.CurrentSecret(), transport.localSuite))
      ensures r.Completed? ==> transport.expected == {NEWKEYS as int}
    {
      e := Signed(ReadString(m, 0).0);
      if e < 1 || e > p - 1 {
        return Raised;
      }
      hide *;
      var ok := Answer(hostKey, sign);
      r := if ok then Completed else Raised;
    }

    method Answer(hostKey: seq<byte>, sign: Signer) returns (ok: bool)
      requires p > 0 && Fits(p) && transport.Valid() && transport.serverMode && 0 <= f < p
      modifies transport
      ensures transport.Valid() && SameSetup(transport, old(transport.localSuite), old(transport.remoteSuite), old(transport.hash))
      ensures ok <==>
        var s := old(Reached(ContextOf(transport), hostKey, [], [e, f], ModPow(e, x, p)));
        Short(hostKey) && s.Some? && Short(sign(s.value.h))
      ensures ok ==>
        transport.k.Some?
        && Some(transport.CurrentSecret()) == old(Reached(ContextOf(transport), hostKey, [], [e, f], ModPow(e, x, p)))
      ensures ok ==> HashIsOf(transport, hostKey, [], [e, f, ModPow(e, x, p)])
      ensures ok ==>
        Fits(f) && transport.outbox == old(transport.outbox) + [[KEXDH_REPLY] + ReplyBytes(hostKey, f, sign(transport.h)), [NEWKEYS]]
      ensures ok ==> transport.outKeys == Some(ServerToClient(transport.CurrentSecret(), transport.localSuite))
      ensures ok ==> transport.expected == {NEWKEYS as int}
    {
      SmallerFits(f, p);
      hide Reached, ReplyBytes, ServerToClient, HashIsOf, ModPow;
      ok := Conclude(transport, hostKey, [], [e, f], ModPow(e, x, p));
      assert [e, f] + [ModPow(e, x, p)] == [e, f, ModPow(e, x, p)];
      if ok {
        ok := SendReply(transport, KEXDH_REPLY, hostKey, f, sign);
      }
    }

    /** What a server makes of the client's message. */
    function ServerSecret(m: seq<byte>, hostKey: seq<byte>): Option<Secret>
      reads this, transport
      requires p > 0
    {
      var e := Signed(ReadString(m, 0).0);
      Reached(ContextOf(transport), hostKey, [], [e, f], ModPow(e, x, p))
    }

    /** What a client makes of the server's. */
    function ClientSecret(m: seq<byte>): Option<Secret>
      reads this, transport
      requires p > 0
    {
      var (hostKey, f, sig) := ReadReply(m);
      Reached(ContextOf(transport), hostKey, [], [e, f], ModPow(f, x, p))
    }

    /** The client: secret and hash first, then the signature over that hash. */
    method ParseKexdhReply(m: seq<byte>, verify: Verifier) returns (r: Outcome)
      requires p > 0 && transport.Valid() && !transport.serverMode
      modifies this`f, transport
      ensures transport.Valid() && SameSetup(transport, old(transport.localSuite), old(transport.remoteSuite), old(transport.hash))
      ensures f == ReadReply(m).1 && !r.Drawing?
      ensures r.Completed? <==>
        var s := old(ClientSecret(m)); 1 <= f <= p - 1 && s.Some? && verify(ReadReply(m).0, s.value.h, ReadReply(m).2)
      ensures r.Completed? ==> transport.k.Some? && Some(transport.CurrentSecret()) == old(ClientSecret(m))
      ensures r.Completed? ==> HashIsOf(transport, ReadReply(m).0, [], [e, f, ModPow(f, x, p)])
      ensures r.Completed? ==> transport.outKeys == Some(ClientToServer(transport.CurrentSecret(), transport.localSuite))
      ensures r.Completed? ==> transport.expected == {NEWKEYS as int}
      ensures transport.outbox == old(transport.outbox) + if r.Completed? then [[NEWKEYS]] else []
    {
      hide Reached, ReadReply, HashIsOf, ModPow;
      var (hostKey, ff, sig) := ReadReply(m);
      f := ff;
      if f < 1 || f > p - 1 {
        return Raised;
      }
      var ok := Conclude(transport, hostKey, [], [e, f], ModPow(f, x, p));
      assert [e, f] + [ModPow(f, x, p)] == [e, f, ModPow(f, x, p)];
      if !ok {
        return Raised;
      }
      if !verify(hostKey, transport.h, sig) {
        return Raised;
      }
      transport.ActivateOutbound();
      r := Completed;
    }
  }

  /** Some draw survives the eight-byte test. */
  ghost predicate Drawable(draws: seq<seq<byte>>) {
    exists i :: 0 <= i < |draws| && draws[i] != [] && GroupAccepts(MaskFirst(draws[i], 127))
  }

  /** A client and a server that share a context (each one's versions and KEXINIT messages are the
      other's, and so far they have the same session id) and use the same group. */
  ghost predicate Paired(c: KexGroup, s: KexGroup)
    reads c, s, c.transport, s.transport
  {
    && c != s && c.transport != s.transport && c.p == s.p && c.g == s.g
    && LargePrime(c.p) && c.p > 0 && Fits(c.p)
    && c.transport.Valid() && s.transport.Valid()
    && !c.transport.serverMode && s.transport.serverMode
    && ContextOf(c.transport) == ContextOf(s.transport)
    && c.transport.localSuite == s.transport.remoteSuite
    && c.transport.remoteSuite == s.transport.localSuite
  }

  ghost predicate AllOfSize(draws: seq<seq<byte>>) {
    forall i :: 0 <= i < |draws| ==> |draws[i]| == 128
  }

  /** Both ends draw their exponents; the client's message is on its way. */
  method Start(c: KexGroup, s: KexGroup, drawsC: seq<seq<byte>>, drawsS: seq<seq<byte>>)
    returns (ok: bool, init: seq<byte>)
    requires Paired(c, s) && AllOfSize(drawsC) && AllOfSize(drawsS)
    modifies c, s, c.transport, s.transport
    ensures Paired(c, s) && ContextOf(c.transport) == old(ContextOf(c.transport))
    ensures ok <==> Drawable(drawsC) && Drawable(drawsS)
    ensures ok ==> 1 < c.x < (c.p - 1) / 2 && 1 < s.x < (c.p - 1) / 2
    ensures ok ==> c.e == ModPow(c.g, c.x, c.p) && s.f == ModPow(c.g, s.x, c.p)
    ensures ok ==> Fits(c.e) && init == MpintBytes(c.e)
  {
    hide GroupAccepts, LargePrime, MpintBytes, Fits, ModPow, Drawable;
    ok, init := false, [];
    var r := s.StartKex(drawsS);
    if !r.Completed? {
      return;
    }
    r := c.StartKex(drawsC);
    if r.Completed? {
      ok := true;
      init := c.transport.outbox[|c.transport.outbox| - 1][1..];
    }
  }

  /** Nothing about the group, the lengths or the host key stands in the way: the generator is 2
      and the modulus odd, as in every fixed group, and the client accepts the server's signatures. */
  ghost predicate Healthy(p: int, g: int, ctx: Context, hostKey: seq<byte>, sign: Signer, verify: Verifier) {
    && g == 2 && p > 1 && p % 2 == 1 && Fits(p)
    && Short(ctx.clientVersion) && Short(ctx.serverVersion) && Short(ctx.clientKexInit)
    && Short(ctx.serverKexInit) && Short(hostKey)
    && forall h :: Short(sign(h)) && verify(hostKey, h, sign(h))
  }

  lemma HealthyReaches(p: int, g: int, ctx: Context, hostKey: seq<byte>, sign: Signer, verify: Verifier,
                       x: nat, y: nat, k: int)
    requires Healthy(p, g, ctx, hostKey, sign, verify) && 0 <= k < p
    ensures var e, f := ModPow(g, x, p), ModPow(g, y, p);
      1 <= e <= p - 1 && 1 <= f <= p - 1 && Reached(ctx, hostKey, [], [e, f], k).Some?
  {
    PublicValueInRange(x, p);
    PublicValueInRange(y, p);
    var e, f := ModPow(g, x, p), ModPow(g, y, p);
    SmallerFits(e, p);
    SmallerFits(f, p);
    SmallerFits(k, p);
    var t := TranscriptOf(ctx, hostKey, [], [e, f] + [k]);
    HashItemsAt(t);
    hide HashItems, Power, ModPow;
    forall i | 0 <= i < |HashItems(t)| ensures Encodable(HashItems(t)[i]) {
    }
  }

  /** The exchange of the given public values goes through: both pass the range check, the hash can
      be taken, and the client accepts the signature over it. */
  ghost predicate GoesThrough(ctx: Context, p: int, hostKey: seq<byte>, e: int, f: int, k: int, sign: Signer, verify: Verifier) {
    var s := Reached(ctx, hostKey, [], [e, f], k);
    && 1 <= e <= p - 1 && 1 <= f <= p - 1 && s.Some? && Short(hostKey) && Short(sign(s.value.h))
    && verify(hostKey, s.value.h, sign(s.value.h))
  }

  /** The client's message reaches the server and the reply the client. */
  method Deliver(c: KexGroup, s: KexGroup, init: seq<byte>, hostKey: seq<byte>, sign: Signer, verify: Verifier)
    returns (ok: bool)
    requires Paired(c, s) && Fits(c.e) && init == MpintBytes(c.e)
    requires c.e == ModPow(c.g, c.x, c.p) && s.f == ModPow(c.g, s.x, c.p)
    modifies c`f, s`e, c.transport, s.transport
    ensures c.transport.Valid() && s.transport.Valid()
    ensures SameSetup(c.transport, old(c.transport.localSuite), old(c.transport.remoteSuite), old(c.transport.hash))
    ensures SameSetup(s.transport, old(s.transport.localSuite), old(s.transport.remoteSuite), old(s.transport.hash))
    ensures ok <==> GoesThrough(old(ContextOf(c.transport)), c.p, hostKey, c.e, s.f, ModPow(c.g, c.x * s.x, c.p), sign, verify)
    ensures ok ==> s.transport.k.Some? && c.transport.k.Some?
    ensures ok ==>
      Some(s.transport.CurrentSecret()) == Some(c.transport.CurrentSecret())
        == Reached(old(ContextOf(c.transport)), hostKey, [], [c.e, s.f], ModPow(c.g, c.x * s.x, c.p))
    ensures ok ==>
      c.transport.outKeys == Some(ClientToServer(c.transport.CurrentSecret(), c.transport.localSuite))
      && s.transport.outKeys == Some(ServerToClient(c.transport.CurrentSecret(), s.transport.localSuite))
  {
    ok := false;
    MpintArrives(c.e);
    SharedSecret(c.g, c.x, s.x, c.p);
    hide ReadString, ReadReply, Signed, Reached, ModPow, ClientToServer, ServerToClient, ReplyBytes, MpintBytes, Short, LargePrime;
    var r := s.ParseKexdhInit(init, hostKey, sign);
    if !r.Completed? {
      return;
    }
    var reply := s.transport.outbox[|s.transport.outbox| - 2][1..];
    ReplyArrives(hostKey, s.f, sign(s.transport.h));
    r := c.ParseKexdhReply(reply, verify);
    ok := r.Completed?;
  }

  /** An exchange whose messages arrive as they were sent. Whenever it completes, both ends have
      the secret g^xy, the same hash over the same transcript, the same session id, and each
      direction's keys on both ends. It completes for every draw of exponents when nothing is
      wrong with the inputs. */
  method Exchange(c: KexGroup, s: KexGroup, drawsC: seq<seq<byte>>, drawsS: seq<seq<byte>>,
                  hostKey: seq<byte>, sign: Signer, verify: Verifier)
    returns (done: bool, ghost secret: Secret)
    requires Paired(c, s) && AllOfSize(drawsC) && AllOfSize(drawsS)
    modifies c, s, c.transport, s.transport
    ensures done ==> 1 < c.x < (c.p - 1) / 2 && 1 < s.x < (c.p - 1) / 2
    ensures done ==>
      && secret.k == ModPow(c.g, c.x * s.x, c.p)
      && Some(secret) == Reached(old(ContextOf(c.transport)), hostKey, [], [ModPow(c.g, c.x, c.p), ModPow(c.g, s.x, c.p)], secret.k)
    ensures done ==> Fits(secret.k) && HoldsKeys(c.transport, secret) && HoldsKeys(s.transport, secret)
    ensures done ==> c.transport.outKeys == s.transport.inKeys && s.transport.outKeys == c.transport.inKeys
    ensures Healthy(c.p, c.g, old(ContextOf(c.transport)), hostKey, sign, verify) ==>
      (done <==> Drawable(drawsC) && Drawable(drawsS))
  {
    done, secret := false, Secret(c.transport.hash, 0, [], []);
    ghost var ctx := ContextOf(c.transport);
    var ok, init := Start(c, s, drawsC, drawsS);
    if !ok {
      return;
    }
    ghost var k := ModPow(c.g, c.x * s.x, c.p);
    ghost var healthy := Healthy(c.p, c.g, ctx, hostKey, sign, verify);
    if healthy {
      HealthyGoesThrough(c.p, c.g, ctx, hostKey, sign, verify, c.x, s.x, k);
    }
    hide ModPow, Reached, GoesThrough, Healthy, Drawable, ClientToServer, ServerToClient, LargePrime, MpintBytes;
    done := Deliver(c, s, init, hostKey, sign, verify);
    if done {
      secret := s.transport.CurrentSecret();
      SwitchBoth(c.transport, s.transport, secret, secret);
    }
  }

  lemma HealthyGoesThrough(p: int, g: int, ctx: Context, hostKey: seq<byte>, sign: Signer, verify: Verifier,
                           x: nat, y: nat, k: int)
    requires Healthy(p, g, ctx, hostKey, sign, verify) && 0 <= k < p
    ensures GoesThrough(ctx, p, hostKey, ModPow(g, x, p), ModPow(g, y, p), k, sign, verify)
  {
    HealthyReaches(p, g, ctx, hostKey, sign, verify, x, y, k);
    hide Reached, ModPow;
  }

  /** RFC 3526 section 3; the generator is 2. */
  const P: int := 0xFFFFFFFFFFFFFFFFC90FDAA22168C234C4C6628B80DC1CD129024E088A67CC74020BBEA63B139B22514A08798E3404DDEF9519B3CD3A431B302B0A6DF25F14374FE1356D6D51C245E485B576625E7EC6F44C42E9A637ED6B0BFF5CB6F406B7EDEE386BFB5A899FA5AE9F24117C4B1FE649286651ECE45B3DC2007CB8A163BF0598DA48361C55D39A69163FA8FD24CF5F83655D23DCA3AD961C62F356208552BB9ED529077096966D670C354E4ABC9804F1746C08CA18217C32905E462E36CE3BE39E772C180E86039B2783A2EC07A28FB5C55DF06F4C52C9DE2BCBF6955817183995497CEA956AE515D2261898FA051015728E5A8AACAA68FFFFFFFFFFFFFFFF

  lemma Pow256Middle()
    ensures Pow256(32) == 0x1_0000000000000000000000000000000000000000000000000000000000000000 && Pow256(24) == 0x1_000000000000000000000000000000000000000000000000
  {
    Pow256Eight();
    Pow256Add(8, 8);
    Pow256Add(16, 16);
    Pow256Add(16, 8);
  }

  lemma Pow256Large()
    ensures Pow256(64) == 0x1_00000000000000000000000000000000000000000000000000000000000000000000000000000000000000000000000000000000000000000000000000000000
    ensures Pow256(120) == 0x1_000000000000000000000000000000000000000000000000000000000000000000000000000000000000000000000000000000000000000000000000000000000000000000000000000000000000000000000000000000000000000000000000000000000000000000000000000000000000000000000000
  {
    Pow256Middle();
    Pow256Add(32, 32);
    Pow256Add(32, 24);
    Pow256Add(64, 56);
    hide Pow256;
  }

  lemma Group14IsShort()
    ensures P < Pow256(256)
  {
    Pow256Large();
    Pow256Add(64, 64);
    Pow256Add(128, 128);
    hide Pow256;
  }

  lemma Group14Leads()
    ensures LargePrime(P)
  {
    Pow256Large();
    hide Pow256;
  }

  /** What Exchange asks of its group holds of group 14. */
  lemma Group14IsLarge()
    ensures LargePrime(P) && P > 1 && P % 2 == 1 && Fits(P)
  {
    Group14Leads();
    Group14IsShort();
    NumberFits(P, 256);
    hide Pow256, LargePrime, Fits;
  }

  lemma LeadingZero(s: seq<byte>)
    ensures Signed([0] + s) == BE(s)
  {
    BESingle(0);
    BEConcat([0], s);
  }

  lemma NumberFits(n: nat, k: nat)
    requires n < Pow256(k) && k < 0xFFFF_FFFF
    ensures Fits(n)
  {
    var t := [0] + ToBE(n, k);
    ToBERoundTrip(n, k);
    LeadingZero(ToBE(n, k));
    hide Signed, BE, Pow256, ToBE;
    Util.MpintIsShortest(t);
  }
}
