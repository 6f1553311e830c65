/** paramiko/transport.py: the shared secret of an exchange and the keys made from it,
    RFC 4253 section 7.2. */
module KeyDerivation {
  import opened Bytes
  import opened DiffieHellman
  import opened Options
  import Util
  import Messages

  type Digest = d: seq<byte> | |d| > 0 witness [0]
  type Hash = seq<byte> -> Digest

  const NEWKEYS: byte := 21

  // ---------- the key stream ----------

  /** K1 || ... || Kn with K1 = HASH(kh || start) and Kn = HASH(kh || K1 || ... || Kn-1). */
  function KeyBlocks(hash: Hash, kh: seq<byte>, start: seq<byte>, n: nat): (r: seq<byte>)
    ensures |r| >= n
  {
    if n == 0 then []
    else if n == 1 then hash(kh + start)
    else
      var sofar := KeyBlocks(hash, kh, start, n - 1);
      sofar + hash(kh + sofar)
  }

  /** The first nbytes of the stream. */
  function KeyBytes(hash: Hash, kh: seq<byte>, start: seq<byte>, nbytes: nat): (r: seq<byte>)
    ensures |r| == nbytes
  {
    KeyBlocks(hash, kh, start, nbytes)[..nbytes]
  }

  lemma {:induction false} BlocksExtend(hash: Hash, kh: seq<byte>, start: seq<byte>, m: nat, n: nat)
    requires m <= n
    ensures KeyBlocks(hash, kh, start, m) <= KeyBlocks(hash, kh, start, n)
    decreases n - m
  {
    if m < n {
      BlocksExtend(hash, kh, start, m, n - 1);
    }
  }

  lemma KeyIsPrefix(hash: Hash, kh: seq<byte>, start: seq<byte>, nbytes: nat, n: nat)
    requires |KeyBlocks(hash, kh, start, n)| >= nbytes
    ensures KeyBlocks(hash, kh, start, n)[..nbytes] == KeyBytes(hash, kh, start, nbytes)
  {
    if n <= nbytes {
      BlocksExtend(hash, kh, start, n, nbytes);
    } else {
      BlocksExtend(hash, kh, start, nbytes, n);
    }
  }

  /** A shorter key is a prefix of a longer one. */
  lemma KeysAreNested(hash: Hash, kh: seq<byte>, start: seq<byte>, short: nat, long: nat)
    requires short <= long
    ensures KeyBytes(hash, kh, start, short) <= KeyBytes(hash, kh, start, long)
  {
    BlocksExtend(hash, kh, start, short, long);
  }

  // ---------- what the stream is, without the recursion ----------

  function Concat(d: seq<seq<byte>>): seq<byte> {
    if d == [] then [] else Concat(d[..|d| - 1]) + d[|d| - 1]
  }

  /** The first digest is over the common prefix and the start, every later one over the common prefix and all
      the digests before it. */
  ghost predicate Digests(hash: Hash, kh: seq<byte>, start: seq<byte>, d: seq<seq<byte>>) {
    d != [] && d[0] == hash(kh + start) && forall i :: 1 <= i < |d| ==> d[i] == hash(kh + Concat(d[..i]))
  }

  lemma DigestsPush(hash: Hash, kh: seq<byte>, start: seq<byte>, d: seq<seq<byte>>)
    requires Digests(hash, kh, start, d)
    ensures var e := d + [hash(kh + Concat(d))];
      Digests(hash, kh, start, e) && Concat(e) == Concat(d) + hash(kh + Concat(d))
  {
    var e := d + [hash(kh + Concat(d))];
    assert e[..|d|] == d;
    forall i | 1 <= i < |e| ensures e[i] == hash(kh + Concat(e[..i])) {
      if i < |d| {
        assert e[..i] == d[..i];
      }
    }
  }

  /** The stream is made of such digests. */
  lemma {:induction false} BlocksAreDigests(hash: Hash, kh: seq<byte>, start: seq<byte>, n: nat) returns (d: seq<seq<byte>>)
    requires n > 0
    ensures |d| == n && Digests(hash, kh, start, d) && Concat(d) == KeyBlocks(hash, kh, start, n)
  {
    if n == 1 {
      d := [hash(kh + start)];
      assert Concat(d[..0]) == [] && [] + d[0] == d[0];
    } else {
      d := BlocksAreDigests(hash, kh, start, n - 1);
      DigestsPush(hash, kh, start, d);
      d := d + [hash(kh + Concat(d))];
    }
  }

  /** And there is only one such stream. */
  lemma {:induction false} DigestsAreBlocks(hash: Hash, kh: seq<byte>, start: seq<byte>, d: seq<seq<byte>>)
    requires Digests(hash, kh, start, d)
    ensures Concat(d) == KeyBlocks(hash, kh, start, |d|)
    decreases |d|
  {
    var n := |d| - 1;
    ConcatStep(d);
    if n > 0 {
      DigestsStep(hash, kh, start, d);
      hide Digests, Concat;
      DigestsAreBlocks(hash, kh, start, d[..n]);
      assert d[n] == hash(kh + Concat(d[..n]));
    }
  }

  lemma ConcatStep(d: seq<seq<byte>>)
    requires d != []
    ensures Concat(d) == Concat(d[..|d| - 1]) + d[|d| - 1]
    ensures |d| == 1 ==> Concat(d) == d[0]
  {
    if |d| == 1 {
      assert Concat(d[..0]) == [] && [] + d[0] == d[0];
    }
    hide Concat;
  }

  lemma DigestsStep(hash: Hash, kh: seq<byte>, start: seq<byte>, d: seq<seq<byte>>)
    requires Digests(hash, kh, start, d) && |d| > 1
    ensures Digests(hash, kh, start, d[..|d| - 1]) && d[|d| - 1] == hash(kh + Concat(d[..|d| - 1]))
  {
    hide Concat;
    var e := d[..|d| - 1];
    forall i | 1 <= i < |e| ensures e[i] == hash(kh + Concat(e[..i])) {
      assert e[..i] == d[..i];
    }
  }

  // ---------- the values of one exchange ----------

  /** What both sides derive keys from. */
  datatype Secret = Secret(hash: Hash, k: int, h: seq<byte>, sid: seq<byte>)

  predicate Fits(n: int) {
    |Util.Mpint(n)| < 0x1_0000_0000
  }

  function SecretPrefix(s: Secret): seq<byte>
    requires Fits(s.k)
  {
    Messages.EncodeString(Util.Mpint(s.k)) + s.h
  }

  /** The key for the given letter. */
  function KeyFor(s: Secret, letter: byte, nbytes: nat): seq<byte>
    requires Fits(s.k)
  {
    KeyBytes(s.hash, SecretPrefix(s), [letter] + s.sid, nbytes)
  }

  /** Section 7.2 of RFC 4253: the key is the beginning of HASH(K || H || letter || session_id), as K1, then
      HASH(K || H || K1), then HASH(K || H || K1 || K2), and so on. */
  ghost predicate IsKey(s: Secret, letter: byte, nbytes: nat, key: seq<byte>) {
    && |key| == nbytes && |Util.Mpint(s.k)| < 0x1_0000_0000
    && var kh := Messages.EncodeString(Util.Mpint(s.k)) + s.h;
       exists d :: Digests(s.hash, kh, [letter] + s.sid, d) && key <= Concat(d)
  }

  /** That says which key it is. */
  lemma KeyIffDigests(s: Secret, letter: byte, nbytes: nat, key: seq<byte>)
    requires Fits(s.k)
    ensures key == KeyFor(s, letter, nbytes) <==> IsKey(s, letter, nbytes, key)
  {
    var kh, start := SecretPrefix(s), [letter] + s.sid;
    hide Digests, Concat, KeyBlocks;
    if key == KeyFor(s, letter, nbytes) {
      var d := BlocksAreDigests(s.hash, kh, start, nbytes + 1);
      KeyIsPrefix(s.hash, kh, start, nbytes, nbytes + 1);
      assert key <= Concat(d);
    }
    if IsKey(s, letter, nbytes, key) {
      var d :| Digests(s.hash, kh, start, d) && key <= Concat(d);
      DigestsAreBlocks(s.hash, kh, start, d);
      KeyIsPrefix(s.hash, kh, start, nbytes, |d|);
    }
  }

  /** One direction's algorithms, as far as key sizes go. An AEAD cipher takes no MAC key. */
  datatype Suite = Suite(ivSize: nat, keySize: nat, macKeySize: nat, aead: bool)

  datatype Keys = Keys(iv: seq<byte>, key: seq<byte>, macKey: Option<seq<byte>>)

  function KeysFor(s: Secret, iv: byte, key: byte, mac: byte, suite: Suite): Keys
    requires Fits(s.k)
  {
    Keys(KeyFor(s, iv, suite.ivSize), KeyFor(s, key, suite.keySize),
         if suite.aead then None else Some(KeyFor(s, mac, suite.macKeySize)))
  }

  ghost predicate AreKeys(s: Secret, iv: byte, key: byte, mac: byte, suite: Suite, keys: Keys) {
    && IsKey(s, iv, suite.ivSize, keys.iv) && IsKey(s, key, suite.keySize, keys.key)
    && (if suite.aead then keys.macKey.None? else keys.macKey.Some? && IsKey(s, mac, suite.macKeySize, keys.macKey.value))
  }

  lemma KeysAreDigests(s: Secret, iv: byte, key: byte, mac: byte, suite: Suite)
    requires Fits(s.k)
    ensures AreKeys(s, iv, key, mac, suite, KeysFor(s, iv, key, mac, suite))
  {
    KeyIffDigests(s, iv, suite.ivSize, KeyFor(s, iv, suite.ivSize));
    KeyIffDigests(s, key, suite.keySize, KeyFor(s, key, suite.keySize));
    KeyIffDigests(s, mac, suite.macKeySize, KeyFor(s, mac, suite.macKeySize));
    hide IsKey, KeyFor;
  }

  const A: byte := 65
  const B: byte := 66
  const C: byte := 67
  const D: byte := 68
  const E: byte := 69
  const F: byte := 70

  /** Client to server, RFC 4253 section 7.2: A, C and E. */
  function ClientToServer(s: Secret, suite: Suite): Keys
    requires Fits(s.k)
  {
    KeysFor(s, A, C, E, suite)
  }

  function ServerToClient(s: Secret, suite: Suite): Keys
    requires Fits(s.k)
  {
    KeysFor(s, B, D, F, suite)
  }

  /** The six keys of one exchange come from six different hash inputs. */
  lemma LettersSeparate(s: Secret, a: byte, b: byte)
    requires Fits(s.k) && a != b
    ensures SecretPrefix(s) + ([a] + s.sid) != SecretPrefix(s) + ([b] + s.sid)
  {
    var n := |SecretPrefix(s)|;
    assert (SecretPrefix(s) + ([a] + s.sid))[n] == a;
    assert (SecretPrefix(s) + ([b] + s.sid))[n] == b;
  }

  // ---------- the transport's side ----------

  class Transport {
    const serverMode: bool
    const localVersion: seq<byte>
    const remoteVersion: seq<byte>
    var localKexInit: seq<byte>
    var remoteKexInit: seq<byte>
    var localSuite: Suite
    var remoteSuite: Suite
    var hash: Hash
    var k: Option<int>
    var h: seq<byte>
    var sessionId: Option<seq<byte>>
    var outKeys: Option<Keys>
    var inKeys: Option<Keys>
    var expected: set<int>
    var outbox: seq<seq<byte>>

    constructor (serverMode: bool, localVersion: seq<byte>, remoteVersion: seq<byte>, hash: Hash, local: Suite, remote: Suite)
      ensures Valid() && this.serverMode == serverMode && sessionId.None? && k.None? && outbox == []
      ensures this.localVersion == localVersion && this.remoteVersion == remoteVersion
      ensures this.hash == hash && localSuite == local && remoteSuite == remote
    {
      this.serverMode, this.localVersion, this.remoteVersion := serverMode, localVersion, remoteVersion;
      localKexInit, remoteKexInit, localSuite, remoteSuite := [], [], local, remote;
      this.hash := hash;
      k, h, sessionId, outKeys, inKeys, expected, outbox := None, [], None, None, None, {}, [];
    }

    predicate Valid()
      reads this
    {
      k.Some? ==> Fits(k.value) && sessionId.Some?
    }

    function CurrentSecret(): Secret
      reads this
      requires Valid() && k.Some?
    {
      Secret(hash, k.value, h, sessionId.value)
    }

    /** The session id is the hash of the first exchange and survives every later one. */
    method SetKH(k: int, h: seq<byte>)
      requires Valid() && Fits(k)
      modifies this`k, this`h, this`sessionId
      ensures Valid() && this.k == Some(k) && this.h == h
      ensures sessionId == if old(sessionId).None? then Some(h) else old(sessionId)
    {
      this.k, this.h := Some(k), h;
      if sessionId.None? {
        sessionId := Some(h);
      }
    }

    method SendMessage(m: seq<byte>)
      modifies this`outbox
      ensures outbox == old(outbox) + [m]
    {
      outbox := outbox + [m];
    }

    /** _compute_key: any number of bytes, hashing on until there are enough. */
    method ComputeKey(id: byte, nbytes: nat) returns (key: seq<byte>)
      requires Valid() && k.Some?
      ensures key == KeyFor(CurrentSecret(), id, nbytes)
      ensures IsKey(CurrentSecret(), id, nbytes, key)
    {
      var kh := Messages.EncodeString(Util.Mpint(k.value)) + h;
      ghost var start := [id] + sessionId.value;
      assert kh + [id] + sessionId.value == kh + start;
      var out := hash(kh + [id] + sessionId.value);
      var sofar := out;
      ghost var n: nat := 1;
      while |out| < nbytes
        invariant n >= 1 && out == sofar == KeyBlocks(hash, kh, start, n)
        decreases nbytes - |out|
      {
        var digest := hash(kh + sofar);
        assert KeyBlocks(hash, kh, start, n + 1) == sofar + digest;
        out := out + digest;
        sofar := sofar + digest;
        n := n + 1;
      }
      KeyIsPrefix(hash, kh, start, nbytes, n);
      key := out[..nbytes];
      KeyIffDigests(CurrentSecret(), id, nbytes, key);
    }

    method MakeKeys(iv: byte, key: byte, mac: byte, suite: Suite) returns (r: Keys)
      requires Valid() && k.Some?
      ensures r == KeysFor(CurrentSecret(), iv, key, mac, suite)
    {
      hide KeyFor;
      var ivBytes := ComputeKey(iv, suite.ivSize);
      var keyBytes := ComputeKey(key, suite.keySize);
      var macKey := ComputeKey(mac, suite.macKeySize);
      r := Keys(ivBytes, keyBytes, if suite.aead then None else Some(macKey));
    }

    /** _activate_outbound, up to the packetizer's switch. */
    method ActivateOutbound()
      requires Valid() && k.Some?
      modifies this`outbox, this`outKeys, this`expected
      ensures Valid() && outbox == old(outbox) + [[NEWKEYS]] && expected == {NEWKEYS as int}
      ensures outKeys == Some(if serverMode then ServerToClient(CurrentSecret(), localSuite)
                              else ClientToServer(CurrentSecret(), localSuite))
      ensures if serverMode then AreKeys(CurrentSecret(), 66, 68, 70, localSuite, outKeys.value)
              else AreKeys(CurrentSecret(), 65, 67, 69, localSuite, outKeys.value)
    {
      KeysAreDigests(CurrentSecret(), 66, 68, 70, localSuite);
      KeysAreDigests(CurrentSecret(), 65, 67, 69, localSuite);
      hide AreKeys, KeysFor;
      SendMessage([NEWKEYS]);
      var keys;
      if serverMode {
        keys := MakeKeys(B, D, F, localSuite);
      } else {
        keys := MakeKeys(A, C, E, localSuite);
      }
      outKeys := Some(keys);
      expected := {NEWKEYS as int};
    }

    /** _parse_newkeys: the inbound switch, after which the exchange's values are forgotten. */
    method ParseNewkeys() returns (ok: bool)
      requires Valid()
      modifies this`inKeys, this`k, this`localKexInit, this`remoteKexInit
      ensures Valid() && ok == old(k.Some?)
      ensures !ok ==> inKeys == old(inKeys) && k == old(k)
      ensures ok ==> k == None && inKeys == old(Some(
        if serverMode then ClientToServer(CurrentSecret(), remoteSuite)
        else ServerToClient(CurrentSecret(), remoteSuite)))
      ensures ok ==>
        if serverMode then AreKeys(old(CurrentSecret()), 65, 67, 69, remoteSuite, inKeys.value)
        else AreKeys(old(CurrentSecret()), 66, 68, 70, remoteSuite, inKeys.value)
    {
      hide AreKeys, KeysFor;
      ok := k.Some?;
      if ok {
        KeysAreDigests(CurrentSecret(), 65, 67, 69, remoteSuite);
        KeysAreDigests(CurrentSecret(), 66, 68, 70, remoteSuite);
        var keys;
        if serverMode {
          keys := MakeKeys(A, C, E, remoteSuite);
        } else {
          keys := MakeKeys(B, D, F, remoteSuite);
        }
        inKeys := Some(keys);
        localKexInit, remoteKexInit, k := [], [], None;
      }
    }
  }
}
