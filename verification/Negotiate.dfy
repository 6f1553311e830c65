/** paramiko/transport.py: algorithm negotiation, RFC 4253 section 7.1, seen from both ends. */
module Negotiation {
  import opened Options
  import opened Bytes
  import Messages

  type Name = seq<byte>

  // ---------- choosing ----------

  /** The first name of the client's list that the server has. As a client this is
      filter(server.__contains__, own)[0], as a server filter(own.__contains__, client)[0]. */
  function Choose(client: seq<Name>, server: seq<Name>): (r: Option<Name>)
    ensures r.Some? ==> r.value in client && r.value in server
    ensures r.None? ==> forall x :: x in client ==> x !in server
  {
    if client == [] then None
    else if client[0] in server then Some(client[0])
    else Choose(client[1..], server)
  }

  /** x is the first name of the client's list that stands in the server's. */
  ghost predicate FirstCommon(client: seq<Name>, server: seq<Name>, x: Name) {
    && x in server
    && exists i :: 0 <= i < |client| && client[i] == x && forall j :: 0 <= j < i ==> client[j] !in server
  }

  ghost predicate NoneCommon(client: seq<Name>, server: seq<Name>) {
    forall x :: x in client ==> x !in server
  }

  /** Nothing the client likes better is known to the server. */
  lemma {:induction false} ChoosesFirst(client: seq<Name>, server: seq<Name>)
    requires Choose(client, server).Some?
    ensures FirstCommon(client, server, Choose(client, server).value)
  {
    if client[0] in server {
      assert client[0] == Choose(client, server).value;
    } else {
      ChoosesFirst(client[1..], server);
      var i :| 0 <= i < |client[1..]| && client[1..][i] == Choose(client, server).value
               && forall j :: 0 <= j < i ==> client[1..][j] !in server;
      assert client[i + 1] == Choose(client, server).value;
      forall j | 0 <= j < i + 1 ensures client[j] !in server {
        if j > 0 {
          assert client[j] == client[1..][j - 1];
        }
      }
    }
  }

  function Filter(l: seq<Name>, keep: Name -> bool): (r: seq<Name>)
    ensures forall x :: x in r <==> x in l && keep(x)
  {
    if l == [] then []
    else (if keep(l[0]) then [l[0]] else []) + Filter(l[1..], keep)
  }

  lemma {:induction false} FilterAppend(a: seq<Name>, b: seq<Name>, keep: Name -> bool)
    ensures Filter(a + b, keep) == Filter(a, keep) + Filter(b, keep)
  {
    if a == [] {
      assert a + b == b;
    } else {
      assert (a + b)[1..] == a[1..] + b;
      FilterAppend(a[1..], b, keep);
    }
  }

  lemma {:induction false} FilterAll(l: seq<Name>, keep: Name -> bool)
    requires forall x :: x in l ==> keep(x)
    ensures Filter(l, keep) == l
  {
    if l != [] {
      FilterAll(l[1..], keep);
      assert l == [l[0]] + l[1..];
    }
  }

  // ---------- markers ----------

  predicate HasPrefix(prefix: Name, x: Name) {
    prefix <= x
  }

  predicate IsExtInfo(x: Name) {
    HasPrefix(Ascii("ext-info-"), x)
  }

  predicate IsStrict(x: Name) {
    HasPrefix(Ascii("kex-strict-"), x)
  }

  predicate IsMarker(x: Name) {
    IsExtInfo(x) || IsStrict(x)
  }

  predicate NotMarker(x: Name) {
    !IsMarker(x)
  }

  predicate NotGroupExchange(x: Name) {
    !IsGroupExchange(x)
  }

  predicate IsGroupExchange(x: Name) {
    HasPrefix(Ascii("diffie-hellman-group-exchange-sha"), x)
  }

  const EXT_INFO_C := Ascii("ext-info-c")
  const STRICT_C := Ascii("kex-strict-c-v00@openssh.com")
  const STRICT_S := Ascii("kex-strict-s-v00@openssh.com")

  function StripMarkers(l: seq<Name>): seq<Name> {
    Filter(l, NotMarker)
  }

  /** The strict-mode flag after the scan of the list: the last kex-strict entry decides. */
  function StrictAgreed(l: seq<Name>, expected: Name, advertise: bool, before: bool): bool {
    if l == [] then before
    else if !IsExtInfo(l[|l| - 1]) && IsStrict(l[|l| - 1]) then l[|l| - 1] == expected && advertise
    else StrictAgreed(l[..|l| - 1], expected, advertise, before)
  }

  /** Indices of the markers among the first n names, last one first: to_pop. */
  function MarkersBefore(l: seq<Name>, n: nat): (r: seq<nat>)
    requires n <= |l|
    ensures forall i :: 0 <= i < |r| ==> r[i] < n
  {
    if n == 0 then []
    else if IsMarker(l[n - 1]) then [n - 1] + MarkersBefore(l, n - 1)
    else MarkersBefore(l, n - 1)
  }

  lemma StripStep(l: seq<Name>, n: nat)
    requires 0 < n <= |l|
    ensures StripMarkers(l[n - 1..])
         == (if IsMarker(l[n - 1]) then [] else [l[n - 1]]) + StripMarkers(l[n..])
  {
    assert l[n - 1..][1..] == l[n..];
  }

  lemma MarkersStep(l: seq<Name>, n: nat)
    requires n <= |l|
    ensures n == 0 ==> MarkersBefore(l, n) == [] && l[..n] + StripMarkers(l[n..]) == StripMarkers(l)
    ensures n > 0 && IsMarker(l[n - 1]) ==>
      MarkersBefore(l, n) == [n - 1] + MarkersBefore(l, n - 1)
      && MarkersBefore(l, n)[1..] == MarkersBefore(l, n - 1)
    ensures n > 0 && !IsMarker(l[n - 1]) ==> MarkersBefore(l, n) == MarkersBefore(l, n - 1)
  {
    assert l[0..] == l && l[..0] + StripMarkers(l) == StripMarkers(l);
  }

  lemma SliceStep(l: seq<Name>, a: nat, n: nat, tail: seq<Name>)
    requires a < n <= |l|
    ensures l[a..n] + tail == l[a..n - 1] + ([l[n - 1]] + tail)
    ensures l[n..n] + tail == tail && [] + tail == tail && l[0..] == l
    ensures l[..n] == l[0..n] && l[..n - 1] == l[0..n - 1]
  {
  }

  /** The last marker before n: between it and n there is none. */
  lemma {:induction false} LastMarker(l: seq<Name>, n: nat)
    requires n <= |l|
    ensures var r := MarkersBefore(l, n);
      if r == [] then l[..n] + StripMarkers(l[n..]) == StripMarkers(l)
      else
        && r[1..] == MarkersBefore(l, r[0])
        && l[r[0] + 1..n] + StripMarkers(l[n..]) == StripMarkers(l[r[0]..])
  {
    hide *;
    MarkersStep(l, n);
    if n > 0 {
      var tail := StripMarkers(l[n..]);
      StripStep(l, n);
      SliceStep(l, 0, n, tail);
      LastMarker(l, n - 1);
      var r := MarkersBefore(l, n - 1);
      if r != [] {
        SliceStep(l, r[0] + 1, n, tail);
      }
    }
  }

  /** The scan of _parse_kex_init: it records the markers, then pops their indices, last first. */
  method ScanMarkers(kexAlgoList: seq<Name>, expected: Name, advertise: bool, before: bool)
    returns (algorithms: seq<Name>, agreedOnStrictKex: bool, remoteExtInfo: Option<Name>)
    ensures algorithms == StripMarkers(kexAlgoList)
    ensures agreedOnStrictKex == StrictAgreed(kexAlgoList, expected, advertise, before)
    ensures remoteExtInfo.Some? ==> remoteExtInfo.value in kexAlgoList && IsExtInfo(remoteExtInfo.value)
    ensures remoteExtInfo.None? ==> forall x :: x in kexAlgoList ==> !IsExtInfo(x)
  {
    agreedOnStrictKex, remoteExtInfo := before, None;
    var toPop: seq<nat> := [];
    var i := 0;
    while i < |kexAlgoList|
      invariant 0 <= i <= |kexAlgoList|
      invariant toPop == MarkersBefore(kexAlgoList, i)
      invariant agreedOnStrictKex == StrictAgreed(kexAlgoList[..i], expected, advertise, before)
      invariant remoteExtInfo.Some? ==> remoteExtInfo.value in kexAlgoList && IsExtInfo(remoteExtInfo.value)
      invariant remoteExtInfo.None? ==> forall j :: 0 <= j < i ==> !IsExtInfo(kexAlgoList[j])
    {
      var algo := kexAlgoList[i];
      assert kexAlgoList[..i + 1][..i] == kexAlgoList[..i];
      if IsExtInfo(algo) {
        remoteExtInfo := Some(algo);
        toPop := [i] + toPop;
      } else if IsStrict(algo) {
        agreedOnStrictKex := algo == expected && advertise;
        toPop := [i] + toPop;
      }
      i := i + 1;
    }
    assert kexAlgoList[..i] == kexAlgoList;
    algorithms := PopMarkers(kexAlgoList, toPop);
  }

  method PopMarkers(l: seq<Name>, toPop: seq<nat>) returns (algorithms: seq<Name>)
    requires toPop == MarkersBefore(l, |l|)
    ensures algorithms == StripMarkers(l)
  {
    algorithms := l;
    ghost var n := |l|;
    assert l[..n] == l && l[n..] == [] && l + [] == l && StripMarkers([]) == [];
    hide StripMarkers, MarkersBefore, IsMarker;
    var j := 0;
    while j < |toPop|
      invariant 0 <= j <= |toPop| && n <= |l|
      invariant toPop[j..] == MarkersBefore(l, n)
      invariant algorithms == l[..n] + StripMarkers(l[n..])
    {
      LastMarker(l, n);
      var k := toPop[j];
      assert toPop[j..][0] == k && toPop[j..][1..] == toPop[j + 1..];
      PopAt(l, k, n, StripMarkers(l[n..]));
      algorithms := algorithms[..k] + algorithms[k + 1..];
      n := k;
      j := j + 1;
    }
    LastMarker(l, n);
  }

  lemma PopAt(l: seq<Name>, k: nat, n: nat, tail: seq<Name>)
    requires k < n <= |l|
    ensures var a := l[..n] + tail; a[..k] + a[k + 1..] == l[..k] + (l[k + 1..n] + tail)
  {
  }

  // ---------- both ends ----------

  datatype Prefs = Prefs(kex: seq<Name>, keys: seq<Name>, ciphers: seq<Name>, macs: seq<Name>,
                         compression: seq<Name>)

  datatype Party =
    | Client(prefs: Prefs, strict: bool)
    | Server(prefs: Prefs, strict: bool, hostKeys: set<Name>, modulusPack: bool)

  /** The lists of a KEXINIT message. */
  datatype Lists = Lists(kex: seq<Name>, keys: seq<Name>, clientEncrypt: seq<Name>,
                         serverEncrypt: seq<Name>, clientMac: seq<Name>, serverMac: seq<Name>,
                         clientCompress: seq<Name>, serverCompress: seq<Name>)

  datatype Agreement = Agreement(kex: Name, hostKey: Name, localCipher: Name, remoteCipher: Name,
                                 localMac: Name, remoteMac: Name, localCompression: Name,
                                 remoteCompression: Name, strict: bool)

  function Flip(a: Agreement): Agreement {
    a.(localCipher := a.remoteCipher, remoteCipher := a.localCipher, localMac := a.remoteMac,
       remoteMac := a.localMac, localCompression := a.remoteCompression,
       remoteCompression := a.localCompression)
  }

  /** The host keys a server can use. */
  function Available(p: Party): seq<Name>
    requires p.Server?
  {
    Filter(p.prefs.keys, x => x in p.hostKeys)
  }

  /** _send_kex_init. A server without a modulus pack still announces group exchange: the list was
      copied before it was filtered. */
  function Advertised(p: Party): Lists {
    Lists(p.prefs.kex + MarkersOf(p), if p.Client? then p.prefs.keys else Available(p),
          p.prefs.ciphers, p.prefs.ciphers, p.prefs.macs, p.prefs.macs,
          p.prefs.compression, p.prefs.compression)
  }

  /** The key exchanges a party will accept when it parses the peer's KEXINIT. */
  function Matching(p: Party): seq<Name> {
    if p.Server? && !p.modulusPack then Filter(p.prefs.kex, NotGroupExchange) else p.prefs.kex
  }

  /** A list as it comes off the wire: an empty one reads back as one empty name. */
  function OnWire(l: seq<Name>): seq<Name> {
    if l == [] then [[]] else l
  }

  function Received(l: Lists): Lists {
    Lists(OnWire(l.kex), OnWire(l.keys), OnWire(l.clientEncrypt), OnWire(l.serverEncrypt),
          OnWire(l.clientMac), OnWire(l.serverMac), OnWire(l.clientCompress), OnWire(l.serverCompress))
  }

  lemma OnWireIsSplitJoin(l: seq<Name>)
    requires forall x :: x in l ==> Messages.COMMA !in x
    ensures Messages.Split(Messages.Join(l)) == OnWire(l)
  {
    if l == [] {
      assert Messages.Split([]) == [[]];
    } else {
      Messages.SplitJoin(l);
    }
  }

  /** The first name of the client's list that the server has, whichever of the two we are. */
  function Ours(me: Party, mine: seq<Name>, theirs: seq<Name>): Option<Name> {
    if me.Client? then Choose(mine, theirs) else Choose(theirs, mine)
  }

  /** The names chosen, by direction: c for what the client sends, s for what the server sends. */
  datatype Choices = Choices(kex: Option<Name>, key: Option<Name>,
                             cipherC: Option<Name>, cipherS: Option<Name>, macC: Option<Name>,
                             macS: Option<Name>, zipC: Option<Name>, zipS: Option<Name>)

  function Conclude(isClient: bool, k: Choices, strict: bool): Option<Agreement> {
    if k.kex.None? || k.key.None? || k.cipherC.None? || k.cipherS.None? || k.macC.None?
       || k.macS.None? || k.zipC.None? || k.zipS.None? then None
    else
      var a := Agreement(k.kex.value, k.key.value, k.cipherC.value, k.cipherS.value, k.macC.value,
                         k.macS.value, k.zipC.value, k.zipS.value, strict);
      Some(if isClient then a else Flip(a))
  }

  function ChoicesOf(me: Party, them: Lists): Choices {
    var p := me.prefs;
    Choices(Ours(me, Matching(me), StripMarkers(them.kex)),
            Ours(me, if me.Client? then p.keys else Available(me), them.keys),
            Ours(me, p.ciphers, them.clientEncrypt), Ours(me, p.ciphers, them.serverEncrypt),
            Ours(me, p.macs, them.clientMac), Ours(me, p.macs, them.serverMac),
            Ours(me, p.compression, them.clientCompress), Ours(me, p.compression, them.serverCompress))
  }

  function StrictFor(me: Party, them: Lists, before: bool): bool {
    StrictAgreed(them.kex, if me.Client? then STRICT_S else STRICT_C, me.strict, before)
  }

  /** The outcome of _parse_kex_init: None where it raises IncompatiblePeer. The strict flag of an
      earlier exchange stands unless the peer's list has a kex-strict entry. */
  function Agree(me: Party, them: Lists, before: bool): Option<Agreement> {
    Conclude(me.Client?, ChoicesOf(me, them), StrictFor(me, them, before))
  }

  /** Section 7.1 of RFC 4253, for whatever lists the peer has sent: each direction's algorithms are chosen from
      the lists of that direction, and what is local to one end is remote to the other. */
  ghost predicate ByDirection(me: Party, them: Lists, a: Agreement) {
    var p := me.prefs;
    if me.Client? then
      && FirstCommon(p.kex, StripMarkers(them.kex), a.kex)
      && FirstCommon(p.keys, them.keys, a.hostKey)
      && FirstCommon(p.ciphers, them.clientEncrypt, a.localCipher)
      && FirstCommon(p.ciphers, them.serverEncrypt, a.remoteCipher)
      && FirstCommon(p.macs, them.clientMac, a.localMac)
      && FirstCommon(p.macs, them.serverMac, a.remoteMac)
      && FirstCommon(p.compression, them.clientCompress, a.localCompression)
      && FirstCommon(p.compression, them.serverCompress, a.remoteCompression)
    else
      && FirstCommon(StripMarkers(them.kex), Matching(me), a.kex)
      && FirstCommon(them.keys, Available(me), a.hostKey)
      && FirstCommon(them.serverEncrypt, p.ciphers, a.localCipher)
      && FirstCommon(them.clientEncrypt, p.ciphers, a.remoteCipher)
      && FirstCommon(them.serverMac, p.macs, a.localMac)
      && FirstCommon(them.clientMac, p.macs, a.remoteMac)
      && FirstCommon(them.serverCompress, p.compression, a.localCompression)
      && FirstCommon(them.clientCompress, p.compression, a.remoteCompression)
  }

  /** In one of the eight lists the two ends have nothing in common. */
  ghost predicate Incompatible(me: Party, them: Lists) {
    var p := me.prefs;
    || NoneCommon(Matching(me), StripMarkers(them.kex))
    || NoneCommon(if me.Client? then p.keys else Available(me), them.keys)
    || NoneCommon(p.ciphers, them.clientEncrypt) || NoneCommon(p.ciphers, them.serverEncrypt)
    || NoneCommon(p.macs, them.clientMac) || NoneCommon(p.macs, them.serverMac)
    || NoneCommon(p.compression, them.clientCompress) || NoneCommon(p.compression, them.serverCompress)
  }

  lemma OursMeans(me: Party, mine: seq<Name>, theirs: seq<Name>)
    ensures var x := Ours(me, mine, theirs);
      && (x.None? <==> NoneCommon(mine, theirs))
      && (x.Some? ==> if me.Client? then FirstCommon(mine, theirs, x.value) else FirstCommon(theirs, mine, x.value))
  {
    var client, server := if me.Client? then mine else theirs, if me.Client? then theirs else mine;
    if Choose(client, server).Some? {
      ChoosesFirst(client, server);
    }
    hide FirstCommon;
  }

  lemma AgreeMeans(me: Party, them: Lists, before: bool)
    ensures Agree(me, them, before).None? <==> Incompatible(me, them)
    ensures Agree(me, them, before).Some? ==> ByDirection(me, them, Agree(me, them, before).value)
  {
    var p := me.prefs;
    MatchingOfClient(me);
    hide FirstCommon, NoneCommon, Ours, StripMarkers, Matching, Available, StrictAgreed;
    OursMeans(me, Matching(me), StripMarkers(them.kex));
    OursMeans(me, if me.Client? then p.keys else Available(me), them.keys);
    OursMeans(me, p.ciphers, them.clientEncrypt);
    OursMeans(me, p.ciphers, them.serverEncrypt);
    OursMeans(me, p.macs, them.clientMac);
    OursMeans(me, p.macs, them.serverMac);
    OursMeans(me, p.compression, them.clientCompress);
    OursMeans(me, p.compression, them.serverCompress);
  }

  lemma MatchingOfClient(me: Party)
    ensures me.Client? ==> Matching(me) == me.prefs.kex
  {
  }

  // ---------- the code of _parse_kex_init ----------

  /** filter(known.__contains__, l). */
  function FilterIn(l: seq<Name>, known: seq<Name>): seq<Name> {
    if l == [] then []
    else (if l[0] in known then [l[0]] else []) + FilterIn(l[1..], known)
  }

  lemma {:induction false} FirstOfFilter(l: seq<Name>, known: seq<Name>)
    ensures var f := FilterIn(l, known);
      if f == [] then Choose(l, known).None? else Choose(l, known) == Some(f[0])
  {
    if l != [] && l[0] !in known {
      FirstOfFilter(l[1..], known);
    }
  }

  /** Whichever end we are, the client's order decides and the server's list only filters. */
  method Pick(serverMode: bool, mine: seq<Name>, theirs: seq<Name>) returns (r: Option<Name>)
    ensures r == if serverMode then Choose(theirs, mine) else Choose(mine, theirs)
  {
    FirstOfFilter(theirs, mine);
    FirstOfFilter(mine, theirs);
    var agreed := if serverMode then FilterIn(theirs, mine) else FilterIn(mine, theirs);
    r := if |agreed| == 0 then None else Some(agreed[0]);
  }

  method ParseKexInit(me: Party, them: Lists, before: bool) returns (r: Option<Agreement>)
    ensures r == Agree(me, them, before)
    ensures r.None? <==> Incompatible(me, them)
    ensures r.Some? ==> ByDirection(me, them, r.value)
  {
    AgreeMeans(me, them, before);
    hide Incompatible, ByDirection, Choose, StripMarkers, StrictAgreed, Matching, Available;
    var server := me.Server?;
    var p := me.prefs;
    var kexList, strict, extInfo :=
      ScanMarkers(them.kex, if server then STRICT_C else STRICT_S, me.strict, before);
    var kex := Pick(server, Matching(me), kexList);
    if kex.None? {
      return None;
    }
    var key := Pick(server, if server then Available(me) else p.keys, them.keys);
    if key.None? {
      return None;
    }
    var localCipher := Pick(server, p.ciphers, if server then them.serverEncrypt else them.clientEncrypt);
    var remoteCipher := Pick(server, p.ciphers, if server then them.clientEncrypt else them.serverEncrypt);
    if localCipher.None? || remoteCipher.None? {
      return None;
    }
    var remoteMac := Pick(server, p.macs, if server then them.clientMac else them.serverMac);
    var localMac := Pick(server, p.macs, if server then them.serverMac else them.clientMac);
    if localMac.None? || remoteMac.None? {
      return None;
    }
    var remoteZip := Pick(server, p.compression, if server then them.clientCompress else them.serverCompress);
    var localZip := Pick(server, p.compression, if server then them.serverCompress else them.clientCompress);
    if localZip.None? || remoteZip.None? {
      return None;
    }
    r := Some(Agreement(kex.value, key.value, localCipher.value, remoteCipher.value, localMac.value,
                        remoteMac.value, localZip.value, remoteZip.value, strict));
  }

  // ---------- agreement ----------

  /** Names a party may be configured with: not empty, and not shaped like a marker. */
  ghost predicate Clean(p: Prefs) {
    && (forall x :: x in p.kex ==> x != [] && !IsMarker(x))
    && [] !in p.keys && [] !in p.ciphers && [] !in p.macs && [] !in p.compression
  }

  lemma {:induction false} ChooseNone(l: seq<Name>, m: seq<Name>)
    requires forall x :: x in l ==> x !in m
    ensures Choose(l, m) == None
  {
    if l != [] {
      ChooseNone(l[1..], m);
    }
  }

  lemma ChooseOnWire(client: seq<Name>, server: seq<Name>)
    requires [] !in client && [] !in server
    ensures Choose(OnWire(client), server) == Choose(client, server)
    ensures Choose(client, OnWire(server)) == Choose(client, server)
  {
    if client == [] {
      ChooseNone([[]], server);
    }
    if server == [] {
      ChooseNone(client, [[]]);
      ChooseNone(client, []);
    }
  }

  lemma MarkerNames()
    ensures IsMarker(EXT_INFO_C) && IsMarker(STRICT_C) && IsMarker(STRICT_S)
    ensures IsExtInfo(EXT_INFO_C) && !IsExtInfo(STRICT_C) && !IsExtInfo(STRICT_S)
    ensures IsStrict(STRICT_C) && IsStrict(STRICT_S) && STRICT_C != STRICT_S
  {
    assert Ascii("ext-info-") == EXT_INFO_C[..9];
    assert Ascii("kex-strict-") == STRICT_C[..11] == STRICT_S[..11];
    assert STRICT_C[0] != Ascii("ext-info-")[0] && STRICT_S[0] != Ascii("ext-info-")[0];
    assert STRICT_C[11] != STRICT_S[11];
  }

  function MarkersOf(p: Party): seq<Name> {
    match p
    case Client(_, strict) => [EXT_INFO_C] + if strict then [STRICT_C] else []
    case Server(_, strict, _, _) => if strict then [STRICT_S] else []
  }

  lemma MarkersStrip(p: Party)
    ensures StripMarkers(MarkersOf(p)) == []
  {
    MarkerNames();
    hide IsMarker, IsExtInfo, IsStrict;
    FilterNone(MarkersOf(p), NotMarker);
  }

  lemma {:induction false} FilterNone(l: seq<Name>, keep: Name -> bool)
    requires forall x :: x in l ==> !keep(x)
    ensures Filter(l, keep) == []
  {
    if l != [] {
      FilterNone(l[1..], keep);
    }
  }

  /** A client announces that it takes extension information, and a server does not. */
  lemma AdvertisedExtInfo(p: Party)
    requires Clean(p.prefs)
    ensures Ascii("ext-info-c") in Advertised(p).kex <==> p.Client?
  {
    MarkerNames();
    assert EXT_INFO_C[0] != STRICT_S[0];
    hide IsMarker, Ascii;
  }

  lemma {:induction false} StrictSkips(l: seq<Name>, more: seq<Name>, expected: Name, advertise: bool, before: bool)
    requires forall x :: x in more ==> IsExtInfo(x) || !IsStrict(x)
    ensures StrictAgreed(l + more, expected, advertise, before) == StrictAgreed(l, expected, advertise, before)
    decreases |more|
  {
    if more == [] {
      assert l + more == l;
    } else {
      var m := more[..|more| - 1];
      assert (l + more)[..|l + more| - 1] == l + m;
      assert (l + more)[|l + more| - 1] == more[|more| - 1];
      hide IsExtInfo, IsStrict;
      StrictSkips(l, m, expected, advertise, before);
    }
  }

  lemma StrictLast(l: seq<Name>, x: Name, expected: Name, advertise: bool, before: bool)
    requires IsStrict(x) && !IsExtInfo(x)
    ensures StrictAgreed(l + [x], expected, advertise, before) == (x == expected && advertise)
  {
    assert (l + [x])[|l + [x]| - 1] == x;
  }

  /** The peer of a party that announces strict mode has it exactly if it wants it itself; the peer of one
      that does not keeps what it had. */
  lemma AdvertisedStrict(p: Party, expected: Name, advertise: bool, before: bool)
    requires Clean(p.prefs) && expected == if p.Client? then STRICT_C else STRICT_S
    ensures StrictAgreed(Received(Advertised(p)).kex, expected, advertise, before) == if p.strict then advertise else before
  {
    MarkerNames();
    EmptyNameIsPlain();
    var kex := p.prefs.kex;
    hide IsExtInfo, IsStrict;
    StrictSkips([], kex, expected, advertise, before);
    assert [] + kex == kex;
    match p
    case Client(_, strict) =>
      StrictSkips(kex, [EXT_INFO_C], expected, advertise, before);
      if strict {
        assert kex + ([EXT_INFO_C] + [STRICT_C]) == (kex + [EXT_INFO_C]) + [STRICT_C];
        StrictLast(kex + [EXT_INFO_C], STRICT_C, expected, advertise, before);
      }
    case Server(_, strict, _, _) =>
      if strict {
        StrictLast(kex, STRICT_S, expected, advertise, before);
      } else {
        assert kex + [] == kex;
        StrictSkips([], [[]], expected, advertise, before);
        var wire: seq<Name> := [[]];
        assert [] + wire == wire;
      }
  }

  lemma EmptyNameIsPlain()
    ensures !IsMarker([]) && !IsExtInfo([]) && !IsStrict([])
  {
    assert |Ascii("ext-info-")| == 9 && |Ascii("kex-strict-")| == 11;
  }

  lemma AdvertisedKex(p: Party)
    requires Clean(p.prefs)
    ensures StripMarkers(Received(Advertised(p)).kex) == p.prefs.kex
         || (p.prefs.kex == [] && StripMarkers(Received(Advertised(p)).kex) == [[]])
  {
    var kex := p.prefs.kex;
    MarkersStrip(p);
    FilterAppend(kex, MarkersOf(p), NotMarker);
    FilterAll(kex, NotMarker);
    assert kex + [] == kex;
    EmptyNameIsPlain();
    FilterAll([[]], NotMarker);
  }

  ghost predicate NotFooled(c: Party, s: Party)
    requires c.Client? && s.Server?
  {
    s.modulusPack
    || var k := Choose(c.prefs.kex, s.prefs.kex); k.None? || !IsGroupExchange(k.value)
  }

  /** The key exchange is the only choice the two ends can make differently, and they do so
      exactly when the client picks a group exchange that the server announced but cannot do. */
  lemma KexAgreement(c: Party, s: Party)
    requires c.Client? && s.Server? && Clean(c.prefs) && Clean(s.prefs)
    ensures var kc := Choose(Matching(c), StripMarkers(Received(Advertised(s)).kex));
            var ks := Choose(StripMarkers(Received(Advertised(c)).kex), Matching(s));
      kc == ks <==> NotFooled(c, s)
    ensures Choose(Matching(c), StripMarkers(Received(Advertised(s)).kex)) == Choose(c.prefs.kex, s.prefs.kex)
  {
    var ck, sk := c.prefs.kex, s.prefs.kex;
    AdvertisedKex(c);
    AdvertisedKex(s);
    var m := Matching(s);
    hide IsMarker, IsGroupExchange;
    assert [] !in m;
    ChooseOnWire(ck, sk);
    ChooseOnWire(ck, m);
    var kc, ks := Choose(ck, sk), Choose(ck, m);
    if s.modulusPack || kc.None? {
      if kc.None? {
        ChooseNone(ck, m);
      }
    } else {
      ChooseSubset(ck, sk, m);
    }
  }

  lemma {:induction false} ChooseSubset(client: seq<Name>, server: seq<Name>, part: seq<Name>)
    requires forall x :: x in part ==> x in server
    requires Choose(client, server).Some?
    ensures Choose(client, part) == Choose(client, server) <==> Choose(client, server).value in part
  {
    if client[0] !in server {
      ChooseSubset(client[1..], server, part);
    }
  }

  /** What either end chooses, in terms of the two configurations. */
  lemma ChoicesAre(c: Party, s: Party)
    requires c.Client? && s.Server? && Clean(c.prefs) && Clean(s.prefs)
    ensures var key, cipher, mac, zip := Choose(c.prefs.keys, Available(s)),
              Choose(c.prefs.ciphers, s.prefs.ciphers), Choose(c.prefs.macs, s.prefs.macs),
              Choose(c.prefs.compression, s.prefs.compression);
            var kc, ks := ChoicesOf(c, Received(Advertised(s))), ChoicesOf(s, Received(Advertised(c)));
      && kc == Choices(Choose(c.prefs.kex, s.prefs.kex), key, cipher, cipher, mac, mac, zip, zip)
      && ks == kc.(kex := ks.kex) && (ks.kex == kc.kex <==> NotFooled(c, s))
  {
    KexAgreement(c, s);
    assert [] !in Available(s);
    ChooseOnWire(c.prefs.keys, Available(s));
    ChooseOnWire(c.prefs.ciphers, s.prefs.ciphers);
    ChooseOnWire(c.prefs.macs, s.prefs.macs);
    ChooseOnWire(c.prefs.compression, s.prefs.compression);
    hide Choose, StripMarkers, NotFooled, Filter, MarkersOf, OnWire, IsMarker, Matching, Available, Clean;
  }

  // ---------- any peer ----------

  /** What section 7.1 of RFC 4253 makes of two announcements, direction by direction. */
  function RfcChoices(c: Lists, s: Lists): Choices {
    Choices(Choose(StripMarkers(c.kex), StripMarkers(s.kex)), Choose(c.keys, s.keys),
            Choose(c.clientEncrypt, s.clientEncrypt), Choose(c.serverEncrypt, s.serverEncrypt),
            Choose(c.clientMac, s.clientMac), Choose(c.serverMac, s.serverMac),
            Choose(c.clientCompress, s.clientCompress), Choose(c.serverCompress, s.serverCompress))
  }

  ghost predicate NoEmptyNames(l: Lists) {
    && [] !in l.kex && [] !in l.keys && [] !in l.clientEncrypt && [] !in l.serverEncrypt
    && [] !in l.clientMac && [] !in l.serverMac && [] !in l.clientCompress && [] !in l.serverCompress
  }

  /** What one end has agreed on, local and remote, are the names of the two directions. */
  ghost predicate Assigned(isClient: bool, k: Choices, a: Agreement) {
    && k.kex == Some(a.kex) && k.key == Some(a.hostKey)
    && k.cipherC == Some(if isClient then a.localCipher else a.remoteCipher)
    && k.cipherS == Some(if isClient then a.remoteCipher else a.localCipher)
    && k.macC == Some(if isClient then a.localMac else a.remoteMac)
    && k.macS == Some(if isClient then a.remoteMac else a.localMac)
    && k.zipC == Some(if isClient then a.localCompression else a.remoteCompression)
    && k.zipS == Some(if isClient then a.remoteCompression else a.localCompression)
  }

  ghost predicate Complete(k: Choices) {
    && k.kex.Some? && k.key.Some? && k.cipherC.Some? && k.cipherS.Some? && k.macC.Some? && k.macS.Some?
    && k.zipC.Some? && k.zipS.Some?
  }

  lemma ConcludeMeans(isClient: bool, k: Choices, strict: bool)
    ensures Conclude(isClient, k, strict).Some? <==> Complete(k)
    ensures Conclude(isClient, k, strict).Some? ==> Assigned(isClient, k, Conclude(isClient, k, strict).value)
  {
  }

  lemma StrippedOnWire(l: seq<Name>)
    requires [] !in l
    ensures [] !in StripMarkers(l)
    ensures StripMarkers(OnWire(l)) == OnWire(StripMarkers(l)) || (l != [] && StripMarkers(OnWire(l)) == StripMarkers(l))
  {
    EmptyNameIsPlain();
    FilterAll([[]], NotMarker);
  }

  lemma PlainKex(p: Party)
    requires Clean(p.prefs)
    ensures StripMarkers(Advertised(p).kex) == p.prefs.kex && [] !in Advertised(p).kex
  {
    var kex := p.prefs.kex;
    MarkersStrip(p);
    FilterAppend(kex, MarkersOf(p), NotMarker);
    FilterAll(kex, NotMarker);
    assert kex + [] == kex;
    MarkerNames();
    EmptyNameIsPlain();
  }

  /** The parser as client: it chooses what the rule makes of its own announcement and the peer's. */
  lemma ClientChoices(me: Party, peer: Lists)
    requires me.Client? && Clean(me.prefs) && NoEmptyNames(peer)
    ensures ChoicesOf(me, Received(peer)) == RfcChoices(Advertised(me), peer)
    ensures RfcChoices(Received(Advertised(me)), peer) == RfcChoices(Advertised(me), peer)
  {
    var p, mine := me.prefs, Advertised(me);
    PlainKex(me);
    StrippedOnWire(peer.kex);
    StrippedOnWire(mine.kex);
    ChooseOnWire(p.kex, StripMarkers(peer.kex));
    ChooseOnWire(p.keys, peer.keys);
    ChooseOnWire(p.ciphers, peer.clientEncrypt);
    ChooseOnWire(p.ciphers, peer.serverEncrypt);
    ChooseOnWire(p.macs, peer.clientMac);
    ChooseOnWire(p.macs, peer.serverMac);
    ChooseOnWire(p.compression, peer.clientCompress);
    ChooseOnWire(p.compression, peer.serverCompress);
    hide Choose, StripMarkers, OnWire, MarkersOf;
  }

  /** The parser as server: the same, but for a group exchange that it announced and cannot do. */
  lemma ServerChoices(me: Party, peer: Lists)
    requires me.Server? && Clean(me.prefs) && NoEmptyNames(peer)
    ensures var k, mine := RfcChoices(peer, Advertised(me)), ChoicesOf(me, Received(peer));
      && mine == k.(kex := mine.kex)
      && (mine.kex == k.kex <==> me.modulusPack || k.kex.None? || !IsGroupExchange(k.kex.value))
    ensures RfcChoices(peer, Received(Advertised(me))) == RfcChoices(peer, Advertised(me))
  {
    var p, mine := me.prefs, Advertised(me);
    PlainKex(me);
    StrippedOnWire(peer.kex);
    StrippedOnWire(mine.kex);
    ChooseOnWire(StripMarkers(peer.kex), p.kex);
    ServerKex(me, StripMarkers(peer.kex));
    assert [] !in Available(me);
    ChooseOnWire(peer.keys, Available(me));
    ChooseOnWire(peer.clientEncrypt, p.ciphers);
    ChooseOnWire(peer.serverEncrypt, p.ciphers);
    ChooseOnWire(peer.clientMac, p.macs);
    ChooseOnWire(peer.serverMac, p.macs);
    ChooseOnWire(peer.clientCompress, p.compression);
    ChooseOnWire(peer.serverCompress, p.compression);
    hide Choose, StripMarkers, OnWire, MarkersOf, Matching, Available, IsGroupExchange;
  }

  lemma ServerKex(me: Party, client: seq<Name>)
    requires me.Server? && Clean(me.prefs) && [] !in client
    ensures [] !in Matching(me) && Choose(OnWire(client), Matching(me)) == Choose(client, Matching(me))
    ensures var k := Choose(client, me.prefs.kex);
      Choose(client, Matching(me)) == k <==> me.modulusPack || k.None? || !IsGroupExchange(k.value)
  {
    var kex, m := me.prefs.kex, Matching(me);
    hide IsMarker, IsGroupExchange;
    assert [] !in m;
    ChooseOnWire(client, m);
    var k := Choose(client, kex);
    if !me.modulusPack {
      if k.None? {
        ChooseNone(client, m);
      } else {
        ChooseSubset(client, kex, m);
      }
    }
  }

  /** Negotiation with any peer, in both roles, whatever lists it announces for the two directions: this end and
      a peer that follows the rule, each from its own lists and those it has received, fail together or give
      every direction the same names, local at one end being remote at the other. The one exception is a
      server without a modulus pack whose announcement of group exchange the client takes up. */
  lemma AgreesWithAnyPeer(me: Party, peer: Lists, before: bool)
    requires Clean(me.prefs) && NoEmptyNames(peer)
    ensures var k := if me.Client? then RfcChoices(Received(Advertised(me)), peer) else RfcChoices(peer, Received(Advertised(me)));
      var r := Agree(me, Received(peer), before);
      if me.Client? || me.modulusPack || k.kex.None? || !IsGroupExchange(k.kex.value)
      then (r.Some? <==> Complete(k)) && (r.Some? ==> Assigned(me.Client?, k, r.value))
      else r.Some? ==> r.value.kex != k.kex.value && Assigned(false, k.(kex := Some(r.value.kex)), r.value)
  {
    if me.Client? {
      ClientChoices(me, peer);
    } else {
      ServerChoices(me, peer);
    }
    ConcludeMeans(me.Client?, ChoicesOf(me, Received(peer)), StrictFor(me, Received(peer), before));
    hide ChoicesOf, RfcChoices, Conclude, StrictFor, Received, Advertised, IsGroupExchange, Clean, NoEmptyNames;
  }

  // ---------- two ends of this code ----------

  /** A client and a server that parse each other's KEXINIT both fail or both agree on the same
      algorithms, each direction's by its own name; except that a server without a modulus pack is
      fooled by its own announcement. Strict mode is on exactly if both want it, in the first
      exchange and, since it then starts from that, in every later one. */
  lemma NegotiationIsSymmetric(c: Party, s: Party, before: bool)
    requires c.Client? && s.Server? && Clean(c.prefs) && Clean(s.prefs)
    requires before ==> c.strict && s.strict
    ensures var rc, rs := Agree(c, Received(Advertised(s)), before), Agree(s, Received(Advertised(c)), before);
      && (NotFooled(c, s) ==> rs == if rc.None? then None else Some(Flip(rc.value)))
      && (!NotFooled(c, s) && rc.Some? ==> rs.None? || rs.value.kex != rc.value.kex)
      && (rc.Some? ==> rc.value.strict == (c.strict && s.strict))
      && (rs.Some? ==> rs.value.strict == (c.strict && s.strict))
  {
    AdvertisedStrict(c, STRICT_C, s.strict, before);
    AdvertisedStrict(s, STRICT_S, c.strict, before);
    hide ChoicesOf, Received, Advertised, NotFooled, StrictAgreed, Clean;
    ChoicesAre(c, s);
  }

  /** Every choice is the first on the client's list that the server has. */
  lemma AgreementIsFirstChoice(c: Party, s: Party, before: bool)
    requires c.Client? && s.Server? && Clean(c.prefs) && Clean(s.prefs)
    requires Agree(c, Received(Advertised(s)), before).Some?
    ensures var a := Agree(c, Received(Advertised(s)), before).value;
      && FirstCommon(c.prefs.kex, s.prefs.kex, a.kex)
      && FirstCommon(c.prefs.keys, Available(s), a.hostKey)
      && FirstCommon(c.prefs.ciphers, s.prefs.ciphers, a.localCipher) && a.remoteCipher == a.localCipher
      && FirstCommon(c.prefs.macs, s.prefs.macs, a.localMac) && a.remoteMac == a.localMac
      && FirstCommon(c.prefs.compression, s.prefs.compression, a.localCompression)
      && a.remoteCompression == a.localCompression
  {
    hide ChoicesOf, StrictFor, Received, Advertised, NotFooled, Choose, Clean, FirstCommon;
    ChoicesAre(c, s);
    ChoosesFirst(c.prefs.kex, s.prefs.kex);
    ChoosesFirst(c.prefs.keys, Available(s));
    ChoosesFirst(c.prefs.ciphers, s.prefs.ciphers);
    ChoosesFirst(c.prefs.macs, s.prefs.macs);
    ChoosesFirst(c.prefs.compression, s.prefs.compression);
  }

  /** The failing case, concretely. */
  lemma FooledServer()
    ensures var gex, g14, k := Ascii("diffie-hellman-group-exchange-sha256"), Ascii("group14"), [Ascii("k")];
      var p := Prefs([gex, g14], k, k, k, k);
      var c, s := Client(p, true), Server(p, true, {k[0]}, false);
      Choose(c.prefs.kex, Advertised(s).kex) == Some(gex) && Choose(c.prefs.kex, Matching(s)) == Some(g14)
  {
    var gex, g14, k := Ascii("diffie-hellman-group-exchange-sha256"), Ascii("group14"), [Ascii("k")];
    var prefix := Ascii("diffie-hellman-group-exchange-sha");
    assert prefix == gex[..|prefix|] && IsGroupExchange(gex);
    assert g14[0] != prefix[0] && !IsGroupExchange(g14);
    assert gex != g14;
    var l := [gex, g14];
    assert l[1..] == [g14];
    var one: seq<Name> := [g14];
    assert one[1..] == [];
    assert Filter([g14], NotGroupExchange) == [g14] + Filter([], NotGroupExchange);
    assert Filter(l, NotGroupExchange) == [] + [g14];
    assert Choose(l, [g14]) == Choose([g14], [g14]);
  }
}
