/** paramiko/transport.py: the KEXINIT messages that open an exchange, and the exchange they lead to. */
module KexStart {
  import opened Options
  import opened Bytes
  import opened Messages
  import opened DiffieHellman
  import opened KeyDerivation
  import opened KexCommon
  import KexInits
  import N = Negotiation
  import G = KexGroup14
  import X = KexGroupExchange

  /** Both ends of one connection before an exchange: roles, versions, hash, session id and algorithms
      match, and nothing is said of the KEXINIT messages yet. */
  ghost predicate Ends(c: Transport, s: Transport)
    reads c, s
  {
    && c != s && c.Valid() && s.Valid() && !c.serverMode && s.serverMode
    && c.localVersion == s.remoteVersion && c.remoteVersion == s.localVersion
    && c.hash == s.hash && c.sessionId == s.sessionId
    && c.localSuite == s.remoteSuite && c.remoteSuite == s.localSuite
  }

  /** _send_kex_init: the message, and our copy of it. */
  method SendKexInit(t: Transport, cookie: seq<byte>, l: N.Lists)
    requires KexInits.Sendable(l)
    modifies t`localKexInit, t`outbox
    ensures t.localKexInit == KexInits.LocalKexInit(cookie, l) && t.outbox == old(t.outbox) + [t.localKexInit]
  {
    t.localKexInit := KexInits.LocalKexInit(cookie, l);
    t.SendMessage(t.localKexInit);
  }

  /** _parse_kex_init: what was read of the peer's message, rebuilt. */
  method TakeKexInit(t: Transport, m: seq<byte>) returns (lists: N.Lists)
    modifies t`remoteKexInit
    ensures t.remoteKexInit == KexInits.RemoteKexInit(m) && lists == KexInits.ReallyParseKexInit(m).0
  {
    lists := KexInits.ReallyParseKexInit(m).0;
    t.remoteKexInit := KexInits.RemoteKexInit(m);
  }

  /** A KEXINIT each way, with any junk behind either: afterwards both ends have the same context to hash. */
  method Open(c: Transport, s: Transport, cookieC: seq<byte>, listsC: N.Lists, junkC: seq<byte>,
              cookieS: seq<byte>, listsS: N.Lists, junkS: seq<byte>)
    requires Ends(c, s) && |cookieC| == 16 && |cookieS| == 16
    requires KexInits.Sendable(listsC) && KexInits.Sendable(listsS)
    modifies c`localKexInit, c`remoteKexInit, c`outbox, s`localKexInit, s`remoteKexInit, s`outbox
    ensures Ends(c, s) && ContextOf(c) == ContextOf(s)
    ensures ContextOf(c).clientKexInit == KexInits.LocalKexInit(cookieC, listsC)
    ensures ContextOf(c).serverKexInit == KexInits.LocalKexInit(cookieS, listsS)
  {
    hide KexInits.LocalKexInit, KexInits.Sendable;
    SendKexInit(c, cookieC, listsC);
    SendKexInit(s, cookieS, listsS);
    Hand(c, s, cookieC, listsC, junkC);
    Hand(s, c, cookieS, listsS, junkS);
  }

  /** One of the two messages on its way. */
  method Hand(sender: Transport, t: Transport, cookie: seq<byte>, l: N.Lists, junk: seq<byte>)
    requires sender != t && |cookie| == 16 && KexInits.Sendable(l) && sender.localKexInit == KexInits.LocalKexInit(cookie, l)
    modifies t`remoteKexInit
    ensures t.remoteKexInit == KexInits.LocalKexInit(cookie, l)
  {
    Arrives(cookie, l, junk);
    hide KexInits.RemoteKexInit, KexInits.ReallyParseKexInit, KexInits.LocalKexInit, KexInits.Sendable;
    var lists := TakeKexInit(t, sender.localKexInit[1..] + junk);
  }

  lemma Arrives(cookie: seq<byte>, l: N.Lists, junk: seq<byte>)
    requires |cookie| == 16 && KexInits.Sendable(l)
    ensures KexInits.LocalKexInit(cookie, l) != []
    ensures KexInits.RemoteKexInit(KexInits.LocalKexInit(cookie, l)[1..] + junk) == KexInits.LocalKexInit(cookie, l)
  {
    KexInits.KexInitRebuilt(cookie, l, junk);
    var body := EncodeAll(KexInits.Fields(cookie, l));
    hide EncodeAll, KexInits.Fields, KexInits.RemoteKexInit, AllEncodable;
    assert ([KexInits.KEXINIT] + body)[1..] == body;
  }

  /** A fixed-group exchange from the KEXINIT messages to the new keys. */
  method FixedGroup(c: G.KexGroup, s: G.KexGroup, cookieC: seq<byte>, listsC: N.Lists, junkC: seq<byte>,
                    cookieS: seq<byte>, listsS: N.Lists, junkS: seq<byte>,
                    drawsC: seq<seq<byte>>, drawsS: seq<seq<byte>>, hostKey: seq<byte>, sign: Signer, verify: Verifier)
    returns (done: bool, ghost secret: Secret)
    requires Ends(c.transport, s.transport) && |cookieC| == 16 && |cookieS| == 16
    requires KexInits.Sendable(listsC) && KexInits.Sendable(listsS)
    requires c != s && c.p == s.p && c.g == s.g && LargePrime(c.p) && c.p > 0 && Fits(c.p)
    requires G.AllOfSize(drawsC) && G.AllOfSize(drawsS)
    modifies c, s, c.transport, s.transport
    ensures done ==> Fits(secret.k) && HoldsKeys(c.transport, secret) && HoldsKeys(s.transport, secret)
    ensures done ==> c.transport.outKeys == s.transport.inKeys && s.transport.outKeys == c.transport.inKeys
    ensures done ==>
      secret.k == ModPow(c.g, c.x * s.x, c.p)
      && Some(secret) == Reached(Context(c.transport.localVersion, s.transport.localVersion,
                                         KexInits.LocalKexInit(cookieC, listsC), KexInits.LocalKexInit(cookieS, listsS),
                                         old(c.transport.hash), old(c.transport.sessionId)),
                                 hostKey, [], [ModPow(c.g, c.x, c.p), ModPow(c.g, s.x, c.p)], secret.k)
  {
    hide ModPow, Reached, LargePrime, Fits, KexInits.LocalKexInit, KexInits.Sendable, HoldsKeys, G.AllOfSize, G.Healthy, G.Drawable;
    Open(c.transport, s.transport, cookieC, listsC, junkC, cookieS, listsS, junkS);
    done, secret := G.Exchange(c, s, drawsC, drawsS, hostKey, sign, verify);
  }

  /** And a group exchange. */
  method Negotiated(c: X.KexGex, s: X.KexGex, cookieC: seq<byte>, listsC: N.Lists, junkC: seq<byte>,
                    cookieS: seq<byte>, listsS: N.Lists, junkS: seq<byte>, testOldStyle: bool,
                    drawsC: seq<seq<byte>>, drawsS: seq<seq<byte>>, hostKey: seq<byte>, sign: Signer, verify: Verifier)
    returns (done: bool, ghost secretC: Secret, ghost secretS: Secret)
    requires Ends(c.transport, s.transport) && |cookieC| == 16 && |cookieS| == 16
    requires KexInits.Sendable(listsC) && KexInits.Sendable(listsS)
    requires c != s && !c.oldStyle && !s.oldStyle && X.NoneEmpty(drawsC) && X.NoneEmpty(drawsS)
    modifies c, s, c.transport, s.transport
    ensures done ==>
      X.Ended(c, s, Context(c.transport.localVersion, s.transport.localVersion,
                            KexInits.LocalKexInit(cookieC, listsC), KexInits.LocalKexInit(cookieS, listsS),
                            old(c.transport.hash), old(c.transport.sessionId)),
              X.Hashed(old(c.Bits()), testOldStyle),
              X.Hashed(X.ServerSizes(old(c.Bits()), old(s.Bits()), testOldStyle), testOldStyle), hostKey, secretC, secretS)
    ensures done && old(s.minBits <= s.maxBits && X.SizesAgree(c.Bits(), s.Bits(), testOldStyle)) ==>
      secretC == secretS && c.transport.outKeys == s.transport.inKeys && s.transport.outKeys == c.transport.inKeys
  {
    hide KexInits.LocalKexInit, KexInits.Sendable, X.Ended, X.NoneEmpty, X.Healthy, X.Hashed, X.ServerSizes, X.SizesAgree, GexDrawable;
    Open(c.transport, s.transport, cookieC, listsC, junkC, cookieS, listsS, junkS);
    done, secretC, secretS := X.Exchange(c, s, testOldStyle, drawsC, drawsS, hostKey, sign, verify);
  }
}
