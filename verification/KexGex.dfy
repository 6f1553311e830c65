/** paramiko/kex_gex.py: Diffie-Hellman group exchange, RFC 4419. */
module KexGroupExchange {
  import opened Bytes
  import opened Messages
  import opened DiffieHellman
  import opened Options
  import opened KeyDerivation
  import opened KexCommon
  import Util

  const GEX_REQUEST_OLD: byte := 30
  const GEX_GROUP: byte := 31
  const GEX_INIT: byte := 32
  const GEX_REPLY: byte := 33
  const GEX_REQUEST: byte := 34

  /** An entry of the modulus pack: generator and prime. */
  type Modulus = m: (int, int) | m.1 >= 3 && Fits(m.0) && Fits(m.1) witness (2, 7)

  type ModulusPack = (int, int, int) -> Modulus

  function BitLength(n: nat): nat {
    if n == 0 then 0 else 1 + BitLength(n / 2)
  }

  /** That many bits are needed, and no fewer, to write the number. */
  lemma {:induction false} BitLengthMeans(n: nat)
    requires n > 0
    ensures BitLength(n) > 0 && Power(2, BitLength(n) - 1) <= n < Power(2, BitLength(n))
  {
    if n > 1 {
      BitLengthMeans(n / 2);
    }
  }

  function Abs(n: int): nat {
    if n < 0 then -n else n
  }

  // ---------- sizes ----------

  datatype Sizes = Sizes(min: int, preferred: int, max: int)

  /** The preferred size, moved into the server's own limits. */
  function ClampPreferred(preferred: int, lo: int, hi: int): int {
    var n := if preferred > hi then hi else preferred;
    if n < lo then lo else n
  }

  /** The sizes the server works with and hashes, given what the client asked for. */
  function Clamp(asked: Sizes, lo: int, hi: int): Sizes {
    var n := ClampPreferred(asked.preferred, lo, hi);
    Sizes(if asked.min > n then n else asked.min, n, if asked.max < n then n else asked.max)
  }

  /** The server keeps the sizes, which the client hashes as it sent them, exactly when they are in
      order and the preferred one is within the server's limits. Whatever was asked for, it works
      with sizes that are. */
  lemma ClampKeeps(asked: Sizes, lo: int, hi: int)
    requires lo <= hi
    ensures Clamp(asked, lo, hi) == asked <==> asked.min <= asked.preferred <= asked.max && lo <= asked.preferred <= hi
    ensures var r := Clamp(asked, lo, hi); r.min <= r.preferred <= r.max && lo <= r.preferred <= hi
    ensures Clamp(Clamp(asked, lo, hi), lo, hi) == Clamp(asked, lo, hi)
  {
  }

  /** The size a server settles on: of all within its limits the nearest to the one asked for. The client's other
      two give way to it, and only as far as they must. */
  ghost predicate Settled(asked: Sizes, lo: int, hi: int, r: Sizes) {
    && Nearest(asked.preferred, lo, hi, r.preferred)
    && r.min <= asked.min && r.min <= r.preferred && (r.min == asked.min || r.min == r.preferred)
    && r.max >= asked.max && r.max >= r.preferred && (r.max == asked.max || r.max == r.preferred)
  }

  ghost predicate Nearest(asked: int, lo: int, hi: int, n: int) {
    && lo <= n <= hi
    && forall k: int :: lo <= k <= hi ==> Distance(asked, n) <= Distance(asked, k)
  }

  function Distance(a: int, b: int): nat {
    Abs(a - b)
  }

  /** That determines the sizes. */
  lemma SettledIff(asked: Sizes, lo: int, hi: int, r: Sizes)
    requires lo <= hi
    ensures r == Clamp(asked, lo, hi) <==> Settled(asked, lo, hi, r)
  {
    NearestIff(asked.preferred, lo, hi, r.preferred);
    hide Nearest, ClampPreferred;
  }

  lemma NearestIff(asked: int, lo: int, hi: int, n: int)
    requires lo <= hi
    ensures n == ClampPreferred(asked, lo, hi) <==> Nearest(asked, lo, hi, n)
  {
    var m := ClampPreferred(asked, lo, hi);
    if Nearest(asked, lo, hi, n) {
      assert Distance(asked, n) <= Distance(asked, m);
    }
  }

  function Hashed(s: Sizes, oldStyle: bool): seq<int> {
    if oldStyle then [s.preferred] else [s.min, s.preferred, s.max]
  }

  /** What the server will hash for what the client will hash. */
  function ServerSizes(asked: Sizes, own: Sizes, oldStyle: bool): Sizes {
    if oldStyle then own.(preferred := ClampPreferred(asked.preferred, own.min, own.max))
    else Clamp(asked, own.min, own.max)
  }

  predicate SizesAgree(asked: Sizes, own: Sizes, oldStyle: bool) {
    own.min <= asked.preferred <= own.max && (oldStyle || asked.min <= asked.preferred <= asked.max)
  }

  lemma SizesAgreeIff(asked: Sizes, own: Sizes, oldStyle: bool)
    requires own.min <= own.max
    ensures Hashed(asked, oldStyle) == Hashed(ServerSizes(asked, own, oldStyle), oldStyle) <==> SizesAgree(asked, own, oldStyle)
  {
    var a, b := Hashed(asked, oldStyle), Hashed(ServerSizes(asked, own, oldStyle), oldStyle);
    if a == b {
      assert a[0] == b[0];
      if !oldStyle {
        assert a[1] == b[1] && a[2] == b[2];
      }
    }
  }

  // ---------- request messages ----------

  predicate IsInt(n: int) {
    0 <= n < 0x1_0000_0000
  }

  function RequestBytes(s: Sizes): seq<byte>
    requires IsInt(s.min) && IsInt(s.preferred) && IsInt(s.max)
  {
    ToBE(s.min, 4) + (ToBE(s.preferred, 4) + ToBE(s.max, 4))
  }

  function ReadRequest(m: seq<byte>): Sizes {
    var (a, p) := ReadBytes(m, 0, 4);
    var (b, q) := ReadBytes(m, p, 4);
    Sizes(BE(a), BE(b), BE(ReadBytes(m, q, 4).0))
  }

  lemma IntArrives(m: seq<byte>, pos: nat, n: int)
    requires IsInt(n) && IsAt(m, pos, ToBE(n, 4))
    ensures ReadBytes(m, pos, 4) == (ToBE(n, 4), pos + 4) && BE(ToBE(n, 4)) == n
  {
    Pow256Four();
    ToBERoundTrip(n, 4);
    ReadExact(m, pos, ToBE(n, 4));
  }

  lemma RequestArrives(s: Sizes)
    requires IsInt(s.min) && IsInt(s.preferred) && IsInt(s.max)
    ensures ReadRequest(RequestBytes(s)) == s
  {
    var m, a, b, c := RequestBytes(s), ToBE(s.min, 4), ToBE(s.preferred, 4), ToBE(s.max, 4);
    assert IsAt(m, 0, a + (b + c));
    IsAtSplit(m, 0, a, b + c);
    IsAtSplit(m, 4, b, c);
    hide IsAt, ReadBytes, ToBE, BE, RequestBytes;
    IntArrives(m, 0, s.min);
    IntArrives(m, 4, s.preferred);
    IntArrives(m, 8, s.max);
  }

  lemma OldRequestArrives(n: int)
    requires IsInt(n)
    ensures BE(ReadBytes(ToBE(n, 4), 0, 4).0) == n
  {
    IntArrives(ToBE(n, 4), 0, n);
  }

  // ---------- the engine ----------

  class KexGex {
    const transport: Transport
    const pack: Option<ModulusPack>
    var p: Option<int>
    var g: int
    var x: nat
    var e: int
    var f: int
    var minBits: int
    var preferredBits: int
    var maxBits: int
    var oldStyle: bool

    constructor (transport: Transport, pack: Option<ModulusPack>)
      ensures this.transport == transport && this.pack == pack && p.None? && !oldStyle
      ensures Bits() == Sizes(2048, 2048, 8192)
    {
      this.transport, this.pack := transport, pack;
      p, g, x, e, f, oldStyle := None, 0, 0, 0, 0, false;
      minBits, preferredBits, maxBits := 2048, 2048, 8192;
    }

    function Bits(): Sizes
      reads this
    {
      Sizes(minBits, preferredBits, maxBits)
    }

    predicate HasGroup()
      reads this
    {
      p.Some? && p.value >= 3 && Fits(p.value) && Fits(g)
    }

    /** Only a client sends anything yet. */
    method StartKex(testOldStyle: bool) returns (r: Outcome)
      requires transport.Valid()
      modifies this`oldStyle, transport`outbox, transport`expected
      ensures transport.Valid() && !r.Drawing?
      ensures transport.serverMode ==>
        r.Completed? && oldStyle == old(oldStyle) && transport.outbox == old(transport.outbox)
        && transport.expected == {GEX_REQUEST as int, GEX_REQUEST_OLD as int}
      ensures !transport.serverMode ==>
        (r.Completed? <==> IsInt(preferredBits) && (testOldStyle || (IsInt(minBits) && IsInt(maxBits))))
      ensures !transport.serverMode && r.Completed? ==>
        oldStyle == (testOldStyle || old(oldStyle)) && transport.expected == {GEX_GROUP as int}
        && transport.outbox == old(transport.outbox) +
             [if testOldStyle then [GEX_REQUEST_OLD] + ToBE(preferredBits, 4) else [GEX_REQUEST] + RequestBytes(Bits())]
    {
      if transport.serverMode {
        transport.expected := {GEX_REQUEST as int, GEX_REQUEST_OLD as int};
        return Completed;
      }
      if !IsInt(preferredBits) || (!testOldStyle && !(IsInt(minBits) && IsInt(maxBits))) {
        return Raised;
      }
      if testOldStyle {
        transport.SendMessage([GEX_REQUEST_OLD] + ToBE(preferredBits, 4));
        oldStyle := true;
      } else {
        transport.SendMessage([GEX_REQUEST] + RequestBytes(Bits()));
      }
      transport.expected := {GEX_GROUP as int};
      r := Completed;
    }

    /** The server's answer to either request: a group from the pack. */
    method SendGroup() returns (r: Outcome)
      requires transport.Valid()
      modifies this`p, this`g, transport`outbox, transport`expected
      ensures transport.Valid() && r == if pack.Some? then Completed else Raised
      ensures r.Completed? ==>
        HasGroup() && (g, p.value) == pack.value(minBits, preferredBits, maxBits)
        && transport.outbox == old(transport.outbox) + [[GEX_GROUP] + (MpintBytes(p.value) + MpintBytes(g))]
        && transport.expected == {GEX_INIT as int}
    {
      if pack.None? {
        return Raised;
      }
      var modulus := pack.value(minBits, preferredBits, maxBits);
      g, p := modulus.0, Some(modulus.1);
      transport.SendMessage([GEX_GROUP] + (MpintBytes(p.value) + MpintBytes(g)));
      transport.expected := {GEX_INIT as int};
      r := Completed;
    }

    method ParseGexRequest(m: seq<byte>) returns (r: Outcome)
      requires transport.Valid()
      modifies this`p, this`g, this`minBits, this`preferredBits, this`maxBits, transport`outbox, transport`expected
      ensures transport.Valid() && r == if pack.Some? then Completed else Raised
      ensures Bits() == Clamp(ReadRequest(m), old(minBits), old(maxBits))
      ensures old(minBits) <= old(maxBits) ==> Settled(ReadRequest(m), old(minBits), old(maxBits), Bits())
      ensures r.Completed? ==>
        HasGroup() && (g, p.value) == pack.value(minBits, preferredBits, maxBits)
        && transport.outbox == old(transport.outbox) + [[GEX_GROUP] + (MpintBytes(p.value) + MpintBytes(g))]
        && transport.expected == {GEX_INIT as int}
    {
      hide ReadRequest, MpintBytes, Fits;
      if minBits <= maxBits {
        SettledIff(ReadRequest(m), minBits, maxBits, Clamp(ReadRequest(m), minBits, maxBits));
      }
      hide Settled;
      var Sizes(minbits, preferredbits, maxbits) := ReadRequest(m);
      if preferredbits > maxBits {
        preferredbits := maxBits;
      }
      if preferredbits < minBits {
        preferredbits := minBits;
      }
      if minbits > preferredbits {
        minbits := preferredbits;
      }
      if maxbits < preferredbits {
        maxbits := preferredbits;
      }
      minBits, preferredBits, maxBits := minbits, preferredbits, maxbits;
      r := SendGroup();
    }

    method ParseGexRequestOld(m: seq<byte>) returns (r: Outcome)
      requires transport.Valid()
      modifies this`p, this`g, this`preferredBits, this`oldStyle, transport`outbox, transport`expected
      ensures transport.Valid() && r == if pack.Some? then Completed else Raised
      ensures preferredBits == ClampPreferred(BE(ReadBytes(m, 0, 4).0), minBits, maxBits)
      ensures minBits <= maxBits ==> Nearest(BE(ReadBytes(m, 0, 4).0), minBits, maxBits, preferredBits)
      ensures r.Completed? ==>
        oldStyle && HasGroup() && (g, p.value) == pack.value(minBits, preferredBits, maxBits)
        && transport.outbox == old(transport.outbox) + [[GEX_GROUP] + (MpintBytes(p.value) + MpintBytes(g))]
        && transport.expected == {GEX_INIT as int}
    {
      hide ReadBytes, BE, MpintBytes, Fits;
      preferredBits := BE(ReadBytes(m, 0, 4).0);
      if minBits <= maxBits {
        NearestIff(preferredBits, minBits, maxBits, ClampPreferred(preferredBits, minBits, maxBits));
      }
      hide Nearest;
      if preferredBits > maxBits {
        preferredBits := maxBits;
      }
      if preferredBits < minBits {
        preferredBits := minBits;
      }
      r := SendGroup();
      if r.Completed? {
        oldStyle := true;
      }
    }

    /** The client takes the group if its size is acceptable. A negative p of such a size leaves the
        draw of x without any value to accept. */
    method ParseGexGroup(m: seq<byte>, draws: seq<seq<byte>>) returns (r: Outcome)
      requires transport.Valid()
      requires forall i :: 0 <= i < |draws| ==> draws[i] != []
      modifies this`p, this`g, this`x, this`e, transport`outbox, transport`expected
      ensures transport.Valid()
      ensures p == Some(ReadMpints(m).0) && g == ReadMpints(m).1
      ensures r.Raised? <==> !(1024 <= BitLength(Abs(ReadMpints(m).0)) <= 8192)
      ensures r.Drawing? && p.value > 0 ==> x == old(x)
      ensures r.Completed? <==>
        1024 <= BitLength(Abs(ReadMpints(m).0)) <= 8192 && ReadMpints(m).0 > 0 && GexDrawable(draws, ReadMpints(m).0)
      ensures r.Completed? ==> GexFirst(draws, ReadMpints(m).0, x)
      ensures r.Completed? ==>
        HasGroup() && 1 < x < (p.value - 1) / 2 && e == ModPow(g, x, p.value) && Fits(e)
        && transport.outbox == old(transport.outbox) + [[GEX_INIT] + MpintBytes(e)]
        && transport.expected == {GEX_REPLY as int}
    {
      ReadGroupFits(m);
      hide ReadMpints, MpintBytes, Fits;
      var group := ReadMpints(m);
      p, g := Some(group.0), group.1;
      var bitlen := BitLength(Abs(group.0));
      if bitlen < 1024 || bitlen > 8192 {
        return Raised;
      }
      ThreeBits(Abs(group.0));
      if group.0 < 0 {
        return Drawing;
      }
      var drawn, byteCount, mask := GexGenerateX(draws, group.0);
      if drawn.None? {
        return Drawing;
      }
      x := drawn.value;
      e := ModPow(g, x, group.0);
      SmallerFits(e, group.0);
      transport.SendMessage([GEX_INIT] + MpintBytes(e));
      transport.expected := {GEX_REPLY as int};
      r := Completed;
    }

    /** What a server makes of the exchange, once it has drawn x. */
    function ServerSecret(hostKey: seq<byte>): Option<Secret>
      reads this, transport
      requires HasGroup()
    {
      Reached(ContextOf(transport), hostKey, Hashed(Bits(), oldStyle), [p.value, g, e, f], ModPow(e, x, p.value))
    }

    function ClientSecret(m: seq<byte>): Option<Secret>
      reads this, transport
      requires HasGroup()
    {
      var (hostKey, f, sig) := ReadReply(m);
      Reached(ContextOf(transport), hostKey, Hashed(Bits(), oldStyle), [p.value, g, e, f], ModPow(f, x, p.value))
    }

    /** The server's part of the exchange, in two halves: its own exponent and public value, then
        the hash, the signature and the reply. */
    method ParseGexInit(m: seq<byte>, draws: seq<seq<byte>>, hostKey: seq<byte>, sign: Signer) returns (r: Outcome)
      requires transport.Valid() && transport.serverMode && HasGroup()
      requires forall i :: 0 <= i < |draws| ==> draws[i] != []
      modifies this`e, this`x, this`f, transport
      ensures transport.Valid() && SameSetup(transport, old(transport.localSuite), old(transport.remoteSuite), old(transport.hash))
      ensures e == Signed(ReadString(m, 0).0) && (1 <= e <= p.value - 1 || r.Raised?)
      ensures r.Completed? ==> GexDrawable(draws, p.value)
      ensures 1 <= e <= p.value - 1 && GexDrawable(draws, p.value) ==>
        1 < x < (p.value - 1) / 2 && GexFirst(draws, p.value, x) && f == ModPow(g, x, p.value) && Fits(f)
      ensures 1 <= e <= p.value - 1 && GexDrawable(draws, p.value) ==>
        (r.Completed? <==>
          var s := Reached(old(ContextOf(transport)), hostKey, Hashed(Bits(), oldStyle), [p.value, g, e, f], ModPow(e, x, p.value));
          s.Some? && Short(hostKey) && Short(sign(s.value.h)))
      ensures r.Completed? ==>
        transport.k.Some? && Some(transport.CurrentSecret())
          == Reached(old(ContextOf(transport)), hostKey, Hashed(Bits(), oldStyle), [p.value, g, e, f], ModPow(e, x, p.value))
      ensures r.Completed? ==> Answered(old(transport.outbox), hostKey, sign)
      ensures r.Completed? ==> HashIsOf(transport, hostKey, SizesHashed(), [p.value, g, e, f, ModPow(e, x, p.value)])
    {
      hide Fits, Reached, ReadString, Signed, Answered, GexDrawable, GexFirst, ModPow, Short, Hashed, HashIsOf;
      r := TakeInit(m, draws);
      if r.Completed? {
        ghost var before := transport.outbox;
        var ok := AnswerInit(hostKey, sign);
        r := if ok then Completed else Raised;
      }
    }

    /** The sizes that go into the hash: all three, or after an old request the preferred one alone. */
    function SizesHashed(): seq<int>
      reads this`oldStyle, this`minBits, this`preferredBits, this`maxBits
    {
      if oldStyle then [preferredBits] else [minBits, preferredBits, maxBits]
    }

    /** The reply and NEWKEYS are out, and the outbound keys are in place. */
    ghost predicate Answered(before: seq<seq<byte>>, hostKey: seq<byte>, sign: Signer)
      reads this, transport
    {
      && Fits(f) && Short(hostKey) && Short(sign(transport.h)) && transport.Valid() && transport.k.Some?
      && transport.outbox == before + [[GEX_REPLY] + ReplyBytes(hostKey, f, sign(transport.h)), [NEWKEYS]]
      && transport.outKeys == Some(ServerToClient(transport.CurrentSecret(), transport.localSuite))
      && transport.expected == {NEWKEYS as int}
    }

    method TakeInit(m: seq<byte>, draws: seq<seq<byte>>) returns (r: Outcome)
      requires HasGroup()
      requires forall i :: 0 <= i < |draws| ==> draws[i] != []
      modifies this`e, this`x, this`f
      ensures e == Signed(ReadString(m, 0).0)
      ensures r.Raised? <==> !(1 <= e <= p.value - 1)
      ensures r.Completed? <==> 1 <= e <= p.value - 1 && GexDrawable(draws, p.value)
      ensures r.Completed? ==> 1 < x < (p.value - 1) / 2 && f == ModPow(g, x, p.value) && Fits(f)
      ensures r.Completed? ==> GexFirst(draws, p.value, x)
    {
      e := Signed(ReadString(m, 0).0);
      if e < 1 || e > p.value - 1 {
        return Raised;
      }
      var drawn, byteCount, mask := GexGenerateX(draws, p.value);
      if drawn.None? {
        return Drawing;
      }
      x := drawn.value;
      f := ModPow(g, x, p.value);
      SmallerFits(f, p.value);
      r := Completed;
    }

    method AnswerInit(hostKey: seq<byte>, sign: Signer) returns (ok: bool)
      requires transport.Valid() && transport.serverMode && HasGroup() && Fits(f)
      modifies transport
      ensures transport.Valid() && SameSetup(transport, old(transport.localSuite), old(transport.remoteSuite), old(transport.hash))
      ensures ok <==>
        var s := old(ServerSecret(hostKey)); s.Some? && Short(hostKey) && Short(sign(s.value.h))
      ensures ok ==> transport.k.Some? && Some(transport.CurrentSecret()) == old(ServerSecret(hostKey))
      ensures ok ==> Answered(old(transport.outbox), hostKey, sign)
      ensures ok ==> HashIsOf(transport, hostKey, SizesHashed(), [p.value, g, e, f, ModPow(e, x, p.value)])
    {
      hide Fits, Reached, ReplyBytes, ServerToClient, ModPow, HashIsOf;
      assert [p.value, g, e, f] + [ModPow(e, x, p.value)] == [p.value, g, e, f, ModPow(e, x, p.value)];
      ok := Conclude(transport, hostKey, Hashed(Bits(), oldStyle), [p.value, g, e, f], ModPow(e, x, p.value));
      if ok {
        ok := SendReply(transport, GEX_REPLY, hostKey, f, sign);
      }
    }

    method ParseGexReply(m: seq<byte>, verify: Verifier) returns (r: Outcome)
      requires transport.Valid() && !transport.serverMode && HasGroup()
      modifies this`f, transport
      ensures transport.Valid() && SameSetup(transport, old(transport.localSuite), old(transport.remoteSuite), old(transport.hash))
      ensures f == ReadReply(m).1 && !r.Drawing?
      ensures r.Completed? <==>
        var s := old(ClientSecret(m)); 1 <= f <= p.value - 1 && s.Some? && verify(ReadReply(m).0, s.value.h, ReadReply(m).2)
      ensures r.Completed? ==> transport.k.Some? && Some(transport.CurrentSecret()) == old(ClientSecret(m))
      ensures r.Completed? ==> HashIsOf(transport, ReadReply(m).0, SizesHashed(), [p.value, g, e, f, ModPow(f, x, p.value)])
      ensures r.Completed? ==> transport.outKeys == Some(ClientToServer(transport.CurrentSecret(), transport.localSuite))
      ensures r.Completed? ==> transport.expected == {NEWKEYS as int}
      ensures transport.outbox == old(transport.outbox) + if r.Completed? then [[NEWKEYS]] else []
    {
      hide Reached, ReadReply, ClientToServer, Fits, ModPow, HashIsOf;
      var (hostKey, ff, sig) := ReadReply(m);
      f := ff;
      if f < 1 || f > p.value - 1 {
        return Raised;
      }
      assert [p.value, g, e, f] + [ModPow(f, x, p.value)] == [p.value, g, e, f, ModPow(f, x, p.value)];
      var ok := Conclude(transport, hostKey, Hashed(Bits(), oldStyle), [p.value, g, e, f], ModPow(f, x, p.value));
      if !ok {
        return Raised;
      }
      if !verify(hostKey, transport.h, sig) {
        return Raised;
      }
      transport.ActivateOutbound();
      r := Completed;
    }
  }

  lemma ReadGroupFits(m: seq<byte>)
    ensures Fits(ReadMpints(m).0) && Fits(ReadMpints(m).1)
  {
    WhatIsReadFits(m, 0);
    WhatIsReadFits(m, ReadString(m, 0).1);
  }

  lemma ThreeBits(n: nat)
    requires BitLength(n) >= 1024
    ensures n >= 3
  {
    assert BitLength(1) == 1 && BitLength(2) == 2;
  }

  // ---------- both ends ----------

  ghost predicate Paired(c: KexGex, s: KexGex)
    reads c, s, c.transport, s.transport
  {
    && c != s && c.transport != s.transport && c.oldStyle == s.oldStyle
    && c.transport.Valid() && s.transport.Valid()
    && !c.transport.serverMode && s.transport.serverMode
    && ContextOf(c.transport) == ContextOf(s.transport)
    && c.transport.localSuite == s.transport.remoteSuite
    && c.transport.remoteSuite == s.transport.localSuite
  }

  ghost predicate NoneEmpty(draws: seq<seq<byte>>) {
    forall i :: 0 <= i < |draws| ==> draws[i] != []
  }

  function Last(l: seq<seq<byte>>): seq<byte> {
    if l == [] || l[|l| - 1] == [] then [] else l[|l| - 1][1..]
  }

  /** The request and the server's answer to it. */
  method Request(c: KexGex, s: KexGex, testOldStyle: bool) returns (ok: bool, group: seq<byte>)
    requires Paired(c, s) && !c.oldStyle
    modifies c`oldStyle, s`oldStyle, s`p, s`g, s`minBits, s`preferredBits, s`maxBits,
      c.transport`outbox, c.transport`expected, s.transport`outbox, s.transport`expected
    ensures ok ==> Paired(c, s) && c.oldStyle == testOldStyle && s.HasGroup()
    ensures ok ==> s.Bits() == ServerSizes(c.Bits(), old(s.Bits()), testOldStyle)
    ensures ok ==> group == MpintBytes(s.p.value) + MpintBytes(s.g) && s.pack.Some? && (s.g, s.p.value) == FromPack(s.pack.value, s.Bits())
    ensures ok <==> IsInt(c.preferredBits) && (testOldStyle || (IsInt(c.minBits) && IsInt(c.maxBits))) && s.pack.Some?
  {
    var request;
    group := [];
    ok, request := Ask(c, s, testOldStyle);
    hide ReadRequest, RequestBytes, MpintBytes, ReadBytes, BE, ToBE, Fits;
    if ok {
      var r;
      if testOldStyle {
        r := s.ParseGexRequestOld(request);
      } else {
        r := s.ParseGexRequest(request);
      }
      ok := r.Completed?;
      if ok {
        group := Last(s.transport.outbox);
      }
    }
  }

  function FromPack(pack: ModulusPack, sizes: Sizes): Modulus {
    pack(sizes.min, sizes.preferred, sizes.max)
  }

  method Ask(c: KexGex, s: KexGex, testOldStyle: bool) returns (ok: bool, request: seq<byte>)
    requires Paired(c, s) && !c.oldStyle
    modifies c`oldStyle, s`oldStyle,
      c.transport`outbox, c.transport`expected, s.transport`outbox, s.transport`expected
    ensures c.transport.Valid() && s.transport.Valid() && !s.oldStyle
    ensures ok ==> c.oldStyle == testOldStyle
    ensures ok && testOldStyle ==> BE(ReadBytes(request, 0, 4).0) == c.preferredBits
    ensures ok && !testOldStyle ==> ReadRequest(request) == c.Bits()
    ensures ok <==> IsInt(c.preferredBits) && (testOldStyle || (IsInt(c.minBits) && IsInt(c.maxBits)))
  {
    request := [];
    var r := s.StartKex(false);
    r := c.StartKex(testOldStyle);
    ok := r.Completed?;
    if !ok {
      return;
    }
    request := Last(c.transport.outbox);
    if testOldStyle {
      OldRequestArrives(c.preferredBits);
      assert request == ToBE(c.preferredBits, 4);
    } else {
      RequestArrives(c.Bits());
      assert request == RequestBytes(c.Bits());
    }
    hide ReadRequest, RequestBytes, ReadBytes, BE, ToBE;
  }

  /** The client takes the group and sends its public value. */
  method TakeGroup(c: KexGex, s: KexGex, group: seq<byte>, drawsC: seq<seq<byte>>) returns (ok: bool, init: seq<byte>)
    requires Paired(c, s) && s.HasGroup() && group == MpintBytes(s.p.value) + MpintBytes(s.g)
    requires NoneEmpty(drawsC)
    modifies c`p, c`g, c`x, c`e, c.transport`outbox, c.transport`expected
    ensures Paired(c, s) && c.p == s.p && c.g == s.g && c.HasGroup()
    ensures ok ==> 1 < c.x < (c.p.value - 1) / 2 && c.e == ModPow(c.g, c.x, c.p.value)
    ensures ok ==> Fits(c.e) && init == MpintBytes(c.e)
    ensures ok <==> 1024 <= BitLength(c.p.value) <= 8192 && GexDrawable(drawsC, c.p.value)
  {
    GroupArrives(s.p.value, s.g);
    hide MpintBytes, ReadMpints, Fits, ModPow, BitLength, GexDrawable;
    ok, init := false, [];
    var r := c.ParseGexGroup(group, drawsC);
    ok := r.Completed?;
    if ok {
      init := Last(c.transport.outbox);
    }
  }

  /** The sizes fit their fields. */
  predicate Askable(s: Sizes, oldStyle: bool) {
    IsInt(s.preferred) && (oldStyle || (IsInt(s.min) && IsInt(s.max)))
  }

  /** The client takes the group and its draws give an exponent. */
  ghost predicate AcceptableGroup(m: Modulus, draws: seq<seq<byte>>) {
    1024 <= BitLength(m.1) <= 8192 && GexDrawable(draws, m.1)
  }

  /** Everything up to the client's public value. */
  method AgreeOnGroup(c: KexGex, s: KexGex, testOldStyle: bool, drawsC: seq<seq<byte>>) returns (ok: bool, init: seq<byte>)
    requires Paired(c, s) && !c.oldStyle && NoneEmpty(drawsC)
    modifies c`oldStyle, c`p, c`g, c`x, c`e, s`oldStyle, s`p, s`g, s`minBits, s`preferredBits, s`maxBits,
      c.transport`outbox, c.transport`expected, s.transport`outbox, s.transport`expected
    ensures ok ==> Paired(c, s) && c.oldStyle == testOldStyle && s.Bits() == ServerSizes(c.Bits(), old(s.Bits()), testOldStyle)
    ensures ok ==> c.p == s.p && c.g == s.g && c.HasGroup() && 1024 <= BitLength(c.p.value) <= 8192
    ensures ok ==> s.pack.Some? && (c.g, c.p.value) == FromPack(s.pack.value, s.Bits())
    ensures ok <==>
      Askable(c.Bits(), testOldStyle) && s.pack.Some?
      && AcceptableGroup(FromPack(s.pack.value, ServerSizes(c.Bits(), old(s.Bits()), testOldStyle)), drawsC)
    ensures ok ==> 1 < c.x < (c.p.value - 1) / 2 && c.e == ModPow(c.g, c.x, c.p.value)
    ensures ok ==> Fits(c.e) && init == MpintBytes(c.e)
  {
    hide ModPow, MpintBytes, Fits, ServerSizes, BitLength, GexDrawable;
    var group;
    ok, group := Request(c, s, testOldStyle);
    init := [];
    if ok {
      ok, init := TakeGroup(c, s, group, drawsC);
    }
  }

  /** The rest of an exchange with these public values goes through: they pass the range checks, both
      hashes can be taken, and the client accepts the signature over the server's. */
  ghost predicate GoesThrough(ctx: Context, p: int, g: int, hostKey: seq<byte>, sizesC: seq<int>, sizesS: seq<int>,
                              e: int, f: int, k: int, sign: Signer, verify: Verifier) {
    var onServer := Reached(ctx, hostKey, sizesS, [p, g, e, f], k);
    var onClient := Reached(ctx, hostKey, sizesC, [p, g, e, f], k);
    && 1 <= e <= p - 1 && 1 <= f <= p - 1 && onServer.Some? && onClient.Some?
    && Short(hostKey) && Short(sign(onServer.value.h)) && verify(hostKey, onClient.value.h, sign(onServer.value.h))
  }

  /** The client's public value reaches the server, which draws, hashes and signs. */
  method ServerAnswers(c: KexGex, s: KexGex, init: seq<byte>, drawsS: seq<seq<byte>>, hostKey: seq<byte>, sign: Signer)
    returns (ok: bool, reply: seq<byte>)
    requires Paired(c, s) && c.HasGroup() && c.p == s.p && c.g == s.g && NoneEmpty(drawsS)
    requires c.e == ModPow(c.g, c.x, c.p.value) && Fits(c.e) && init == MpintBytes(c.e)
    modifies s`e, s`x, s`f, s.transport
    ensures s.transport.Valid()
    ensures SameSetup(s.transport, old(s.transport.localSuite), old(s.transport.remoteSuite), old(s.transport.hash))
    ensures ok ==> 1 <= c.e <= c.p.value - 1 && GexDrawable(drawsS, c.p.value)
    ensures 1 <= c.e <= c.p.value - 1 && GexDrawable(drawsS, c.p.value) ==>
      1 < s.x < (s.p.value - 1) / 2 && s.f == ModPow(s.g, s.x, s.p.value) && Fits(s.f)
    ensures 1 <= c.e <= c.p.value - 1 && GexDrawable(drawsS, c.p.value) ==>
      (ok <==> var onServer := Reached(old(ContextOf(c.transport)), hostKey, Hashed(s.Bits(), c.oldStyle),
                                       [c.p.value, c.g, c.e, s.f], ModPow(c.g, c.x * s.x, c.p.value));
               onServer.Some? && Short(hostKey) && Short(sign(onServer.value.h)))
    ensures ok ==> s.transport.k.Some? && s.e == c.e
    ensures ok ==> Some(s.transport.CurrentSecret()) == Reached(old(ContextOf(c.transport)), hostKey,
                     Hashed(s.Bits(), c.oldStyle), [c.p.value, c.g, c.e, s.f], ModPow(c.g, c.x * s.x, c.p.value))
    ensures ok ==> s.transport.outKeys == Some(ServerToClient(s.transport.CurrentSecret(), s.transport.localSuite))
    ensures ok ==>
      Short(hostKey) && Short(sign(s.transport.h)) && Fits(s.f) && reply == ReplyBytes(hostKey, s.f, sign(s.transport.h))
  {
    MpintArrives(c.e);
    hide ReadString, Signed, Reached, ModPow, ServerToClient, ReplyBytes, MpintBytes, Short, Fits, Hashed, GexDrawable;
    reply := [];
    var r := s.ParseGexInit(init, drawsS, hostKey, sign);
    SharedSecret(c.g, c.x, s.x, c.p.value);
    ok := r.Completed?;
    if ok {
      reply := s.transport.outbox[|s.transport.outbox| - 2][1..];
    }
  }

  /** The client's public value and the server's reply. */
  method Deliver(c: KexGex, s: KexGex, init: seq<byte>, drawsS: seq<seq<byte>>, hostKey: seq<byte>,
                 sign: Signer, verify: Verifier) returns (ok: bool)
    requires Paired(c, s) && c.HasGroup() && c.p == s.p && c.g == s.g && NoneEmpty(drawsS)
    requires c.e == ModPow(c.g, c.x, c.p.value) && Fits(c.e) && init == MpintBytes(c.e)
    modifies c`f, s`e, s`x, s`f, c.transport, s.transport
    ensures c.transport.Valid() && s.transport.Valid()
    ensures SameSetup(c.transport, old(c.transport.localSuite), old(c.transport.remoteSuite), old(c.transport.hash))
    ensures SameSetup(s.transport, old(s.transport.localSuite), old(s.transport.remoteSuite), old(s.transport.hash))
    ensures ok ==> 1 < s.x < (s.p.value - 1) / 2 && s.e == c.e && c.f == s.f == ModPow(s.g, s.x, s.p.value)
    ensures ok ==> s.transport.k.Some? && c.transport.k.Some?
    ensures ok ==> Some(c.transport.CurrentSecret()) == Reached(old(ContextOf(c.transport)), hostKey,
                     Hashed(c.Bits(), c.oldStyle), [c.p.value, c.g, c.e, c.f], ModPow(c.g, c.x * s.x, c.p.value))
    ensures ok ==> Some(s.transport.CurrentSecret()) == Reached(old(ContextOf(c.transport)), hostKey,
                     Hashed(s.Bits(), c.oldStyle), [c.p.value, c.g, c.e, c.f], ModPow(c.g, c.x * s.x, c.p.value))
    ensures ok ==> verify(hostKey, c.transport.h, sign(s.transport.h))
    ensures ok ==> GexDrawable(drawsS, c.p.value)
    ensures 1 <= c.e <= c.p.value - 1 && GexDrawable(drawsS, c.p.value) ==>
      1 < s.x < (s.p.value - 1) / 2 &&
      (ok <==> GoesThrough(old(ContextOf(c.transport)), c.p.value, c.g, hostKey, Hashed(c.Bits(), c.oldStyle), Hashed(s.Bits(), c.oldStyle),
                           c.e, ModPow(c.g, s.x, c.p.value), ModPow(c.g, c.x * s.x, c.p.value), sign, verify))
    ensures ok ==> c.transport.outKeys == Some(ClientToServer(c.transport.CurrentSecret(), c.transport.localSuite))
    ensures ok ==> s.transport.outKeys == Some(ServerToClient(s.transport.CurrentSecret(), s.transport.localSuite))
  {
    hide ReadReply, Reached, ModPow, ClientToServer, ServerToClient, ReplyBytes, MpintBytes, Short, Fits, Hashed, GexDrawable;
    var reply;
    ok, reply := ServerAnswers(c, s, init, drawsS, hostKey, sign);
    if !ok {
      return;
    }
    SharedSecret(c.g, c.x, s.x, c.p.value);
    ReplyArrives(hostKey, s.f, sign(s.transport.h));
    var r := c.ParseGexReply(reply, verify);
    ok := r.Completed?;
  }

  /** How an exchange ends: each side's secret, reached over its own sizes. */
  ghost predicate Ended(c: KexGex, s: KexGex, ctx: Context, sizesC: seq<int>, sizesS: seq<int>, hostKey: seq<byte>,
                        secretC: Secret, secretS: Secret)
    reads c, s, c.transport, s.transport
  {
    && c.p.Some? && c.p == s.p && c.p.value >= 3 && c.g == s.g
    && 1 < s.x < (c.p.value - 1) / 2
    && var e, f, k := ModPow(c.g, c.x, c.p.value), ModPow(c.g, s.x, c.p.value), ModPow(c.g, c.x * s.x, c.p.value);
    && secretC.k == secretS.k == k && Fits(k)
    && Some(secretC) == Reached(ctx, hostKey, sizesC, [c.p.value, c.g, e, f], k)
    && Some(secretS) == Reached(ctx, hostKey, sizesS, [c.p.value, c.g, e, f], k)
    && HoldsKeys(c.transport, secretC) && HoldsKeys(s.transport, secretS)
  }

  ghost predicate Would(c: KexGex, s: KexGex, ctx: Context, hostKey: seq<byte>, sign: Signer, verify: Verifier)
    reads c, s
    requires c.p.Some? && c.p.value > 0
  {
    GoesThrough(ctx, c.p.value, c.g, hostKey, Hashed(c.Bits(), c.oldStyle), Hashed(s.Bits(), c.oldStyle),
                c.e, ModPow(c.g, s.x, c.p.value), ModPow(c.g, c.x * s.x, c.p.value), sign, verify)
  }

  /** Delivery, and then the NEWKEYS of each end. */
  method Finish(c: KexGex, s: KexGex, init: seq<byte>, drawsS: seq<seq<byte>>, hostKey: seq<byte>,
                sign: Signer, verify: Verifier) returns (done: bool, ghost secretC: Secret, ghost secretS: Secret)
    requires Paired(c, s) && c.HasGroup() && c.p == s.p && c.g == s.g && NoneEmpty(drawsS)
    requires c.e == ModPow(c.g, c.x, c.p.value) && Fits(c.e) && init == MpintBytes(c.e)
    modifies c`f, s`e, s`x, s`f, c.transport, s.transport
    ensures done ==> Ended(c, s, old(ContextOf(c.transport)), Hashed(c.Bits(), c.oldStyle), Hashed(s.Bits(), c.oldStyle), hostKey, secretC, secretS)
    ensures done ==> verify(hostKey, secretC.h, sign(secretS.h))
    ensures done && Hashed(c.Bits(), c.oldStyle) == Hashed(s.Bits(), c.oldStyle) ==>
      secretC == secretS && c.transport.outKeys == s.transport.inKeys && s.transport.outKeys == c.transport.inKeys
    ensures done ==> GexDrawable(drawsS, c.p.value)
    ensures 1 <= c.e <= c.p.value - 1 && GexDrawable(drawsS, c.p.value) ==>
      (done <==> Would(c, s, old(ContextOf(c.transport)), hostKey, sign, verify))
  {
    secretC, secretS := Secret(c.transport.hash, 0, [], []), Secret(c.transport.hash, 0, [], []);
    ghost var ctx := ContextOf(c.transport);
    hide ModPow, Reached, ClientToServer, ServerToClient, MpintBytes, Fits, Hashed, BitLength, GoesThrough, GexDrawable;
    done := Deliver(c, s, init, drawsS, hostKey, sign, verify);
    if done {
      secretC, secretS := c.transport.CurrentSecret(), s.transport.CurrentSecret();
      SwitchBoth(c.transport, s.transport, secretC, secretS);
      SameSecret(c, s, ctx, Hashed(c.Bits(), c.oldStyle), Hashed(s.Bits(), c.oldStyle), hostKey, secretC, secretS);
    }
  }

  lemma SameSecret(c: KexGex, s: KexGex, ctx: Context, sizesC: seq<int>, sizesS: seq<int>, hostKey: seq<byte>,
                   secretC: Secret, secretS: Secret)
    requires Ended(c, s, ctx, sizesC, sizesS, hostKey, secretC, secretS)
    requires !c.transport.serverMode && s.transport.serverMode
    requires c.transport.localSuite == s.transport.remoteSuite && c.transport.remoteSuite == s.transport.localSuite
    ensures sizesC == sizesS ==> secretC == secretS
    ensures sizesC == sizesS ==> c.transport.outKeys == s.transport.inKeys && s.transport.outKeys == c.transport.inKeys
  {
    hide ModPow, Reached, Fits, ClientToServer, ServerToClient;
  }

  /** Nothing stands in the way: the server has a pack whose group for these sizes the client takes and
      whose generator is a good one, the sizes agree and fit, so do the lengths, and the client
      accepts the server's signatures. */
  ghost predicate Healthy(ctx: Context, pack: Option<ModulusPack>, asked: Sizes, own: Sizes, oldStyle: bool,
                          hostKey: seq<byte>, sign: Signer, verify: Verifier) {
    && pack.Some? && own.min <= own.max && SizesAgree(asked, own, oldStyle) && Askable(asked, oldStyle)
    && HealthyGroup(FromPack(pack.value, ServerSizes(asked, own, oldStyle)))
    && Short(ctx.clientVersion) && Short(ctx.serverVersion) && Short(ctx.clientKexInit)
    && Short(ctx.serverKexInit) && Short(hostKey)
    && forall h :: Short(sign(h)) && verify(hostKey, h, sign(h))
  }

  ghost predicate HealthyGroup(m: Modulus) {
    GoodBase(m.0, m.1) && 1024 <= BitLength(m.1) <= 8192
  }

  lemma HealthyReaches(ctx: Context, m: Modulus, hostKey: seq<byte>, sizes: seq<int>, x: nat, y: nat, k: int)
    requires GoodBase(m.0, m.1) && 0 <= k < m.1
    requires Short(ctx.clientVersion) && Short(ctx.serverVersion) && Short(ctx.clientKexInit)
    requires Short(ctx.serverKexInit) && Short(hostKey)
    requires forall i :: 0 <= i < |sizes| ==> IsInt(sizes[i])
    ensures var e, f := ModPow(m.0, x, m.1), ModPow(m.0, y, m.1);
      1 <= e <= m.1 - 1 && 1 <= f <= m.1 - 1 && Reached(ctx, hostKey, sizes, [m.1, m.0, e, f], k).Some?
  {
    var e, f := ModPow(m.0, x, m.1), ModPow(m.0, y, m.1);
    SmallerFits(e, m.1);
    SmallerFits(f, m.1);
    SmallerFits(k, m.1);
    var t := TranscriptOf(ctx, hostKey, sizes, [m.1, m.0, e, f] + [k]);
    HashItemsAt(t);
    hide HashItems, ModPow, GoodBase;
    var items := HashItems(t);
    assert forall i :: 0 <= i < 5 ==> t.numbers[i] in [m.1, m.0, e, f, k];
    forall i | 0 <= i < |items| ensures Encodable(items[i]) {
      if i >= 5 + |sizes| {
        assert items[i] == Mpint(t.numbers[i - 5 - |sizes|]);
      } else if i >= 5 {
        assert items[i] == Int(sizes[i - 5]);
      }
    }
  }

  lemma HealthyGoesThrough(ctx: Context, pack: Option<ModulusPack>, asked: Sizes, own: Sizes, oldStyle: bool,
                           hostKey: seq<byte>, sign: Signer, verify: Verifier, x: nat, y: nat, k: int)
    requires Healthy(ctx, pack, asked, own, oldStyle, hostKey, sign, verify)
    requires 0 <= k < FromPack(pack.value, ServerSizes(asked, own, oldStyle)).1
    ensures var settled := ServerSizes(asked, own, oldStyle);
            var m := FromPack(pack.value, settled);
      GoesThrough(ctx, m.1, m.0, hostKey, Hashed(asked, oldStyle), Hashed(settled, oldStyle),
                  ModPow(m.0, x, m.1), ModPow(m.0, y, m.1), k, sign, verify)
  {
    SizesAgreeIff(asked, own, oldStyle);
    var m := FromPack(pack.value, ServerSizes(asked, own, oldStyle));
    HealthyReaches(ctx, m, hostKey, Hashed(asked, oldStyle), x, y, k);
    hide Reached, ModPow, GoodBase, ServerSizes;
  }

  /** A whole exchange over a channel that delivers what is sent. Both ends always come to the same
      shared number. The client hashes the sizes it asked for and the server those it settled on;
      everything else in their transcripts is the same, so when the sizes agree, so do the hashes,
      the session ids and each direction's keys. When nothing stands in the way, it completes
      exactly if both ends draw an exponent. */
  method Exchange(c: KexGex, s: KexGex, testOldStyle: bool, drawsC: seq<seq<byte>>, drawsS: seq<seq<byte>>,
                  hostKey: seq<byte>, sign: Signer, verify: Verifier)
    returns (done: bool, ghost secretC: Secret, ghost secretS: Secret)
    requires Paired(c, s) && !c.oldStyle && NoneEmpty(drawsC) && NoneEmpty(drawsS)
    modifies c, s, c.transport, s.transport
    ensures done ==> c.p.Some? && 1024 <= BitLength(Abs(c.p.value)) <= 8192 && 1 < c.x < (c.p.value - 1) / 2
    ensures done ==> Ended(c, s, old(ContextOf(c.transport)), Hashed(old(c.Bits()), testOldStyle),
                           Hashed(ServerSizes(old(c.Bits()), old(s.Bits()), testOldStyle), testOldStyle),
                           hostKey, secretC, secretS)
    ensures done ==> verify(hostKey, secretC.h, sign(secretS.h))
    ensures done && old(s.minBits <= s.maxBits && SizesAgree(c.Bits(), s.Bits(), testOldStyle)) ==>
      secretC == secretS && c.transport.outKeys == s.transport.inKeys && s.transport.outKeys == c.transport.inKeys
    ensures Healthy(old(ContextOf(c.transport)), s.pack, old(c.Bits()), old(s.Bits()), testOldStyle, hostKey, sign, verify) ==>
      var p := FromPack(s.pack.value, ServerSizes(old(c.Bits()), old(s.Bits()), testOldStyle)).1;
      (done <==> GexDrawable(drawsC, p) && GexDrawable(drawsS, p))
  {
    ghost var ctx, asked, own := ContextOf(c.transport), c.Bits(), s.Bits();
    if own.min <= own.max {
      SizesAgreeIff(asked, own, testOldStyle);
    }
    HealthyMeans(ctx, s.pack, asked, own, testOldStyle, hostKey, sign, verify);
    assert c != s && c.transport != s.transport;
    hide ModPow, Reached, MpintBytes, Fits, Hashed, ServerSizes, SizesAgree, BitLength, Ended, Healthy, GexDrawable, GoesThrough, Would, Askable,
      Paired, NoneEmpty;
    var ok, init := AgreeOnGroup(c, s, testOldStyle, drawsC);
    if !ok {
      return false, Secret(c.transport.hash, 0, [], []), Secret(c.transport.hash, 0, [], []);
    }
    ghost var healthy := Healthy(ctx, s.pack, asked, own, testOldStyle, hostKey, sign, verify);
    done, secretC, secretS := Finish(c, s, init, drawsS, hostKey, sign, verify);
    if healthy {
      HealthyWould(c, s, ctx, asked, own, hostKey, sign, verify);
    }
  }

  lemma HealthyWould(c: KexGex, s: KexGex, ctx: Context, asked: Sizes, own: Sizes,
                     hostKey: seq<byte>, sign: Signer, verify: Verifier)
    requires Healthy(ctx, s.pack, asked, own, c.oldStyle, hostKey, sign, verify)
    requires c.Bits() == asked && s.Bits() == ServerSizes(asked, own, c.oldStyle)
    requires c.p.Some? && (c.g, c.p.value) == FromPack(s.pack.value, s.Bits()) && c.e == ModPow(c.g, c.x, c.p.value)
    ensures Would(c, s, ctx, hostKey, sign, verify) && 1 <= c.e <= c.p.value - 1
  {
    HealthyGoesThrough(ctx, s.pack, asked, own, c.oldStyle, hostKey, sign, verify, c.x, s.x, ModPow(c.g, c.x * s.x, c.p.value));
    assert 1 <= ModPow(c.g, c.x, c.p.value) <= c.p.value - 1;
    hide ModPow, Reached, Hashed, ServerSizes, GoodBase;
  }

  lemma HealthyMeans(ctx: Context, pack: Option<ModulusPack>, asked: Sizes, own: Sizes, oldStyle: bool,
                     hostKey: seq<byte>, sign: Signer, verify: Verifier)
    ensures Healthy(ctx, pack, asked, own, oldStyle, hostKey, sign, verify) ==>
      Askable(asked, oldStyle) && pack.Some? && HealthyGroup(FromPack(pack.value, ServerSizes(asked, own, oldStyle)))
  {
  }

  /** The two ends hash the same bytes exactly when the sizes agree: with sizes that do not, a client
      that accepts only signatures over its own hash cannot complete the exchange. */
  lemma SameBytesHashed(ctx: Context, hostKey: seq<byte>, asked: Sizes, own: Sizes, oldStyle: bool, numbers: seq<int>)
    requires own.min <= own.max
    ensures var a := HashItems(TranscriptOf(ctx, hostKey, Hashed(asked, oldStyle), numbers));
            var b := HashItems(TranscriptOf(ctx, hostKey, Hashed(ServerSizes(asked, own, oldStyle), oldStyle), numbers));
      AllEncodable(a) && AllEncodable(b) ==> (EncodeAll(a) == EncodeAll(b) <==> SizesAgree(asked, own, oldStyle))
  {
    SizesAgreeIff(asked, own, oldStyle);
    var ta := TranscriptOf(ctx, hostKey, Hashed(asked, oldStyle), numbers);
    var tb := TranscriptOf(ctx, hostKey, Hashed(ServerSizes(asked, own, oldStyle), oldStyle), numbers);
    assert |ta.sizes| == |tb.sizes|;
    hide HashItems, AllEncodable, EncodeAll, SizesAgree, Hashed, ServerSizes;
    if AllEncodable(HashItems(ta)) && AllEncodable(HashItems(tb)) && EncodeAll(HashItems(ta)) == EncodeAll(HashItems(tb)) {
      TranscriptInjective(ta, tb);
    }
  }
}
